/** Creating, copying and making directories: a new inode with blocks of its own keeps the invariant. */
module FileSystemGrowth {
  import opened Sequences
  import opened FileSystemModel
  import opened FileSystemInvariant

  // ---- allocation ----

  /** Blocks that may be handed out: distinct, in range and clear. */
  ghost predicate FreeBlocks(m: seq<bool>, bs: seq<int>) {
    Distinct(bs) && forall k :: 0 <= k < |bs| ==> 0 <= bs[k] < |m| && !m[bs[k]]
  }

  lemma {:induction false} PutAllAt(m: seq<bool>, bs: seq<int>, v: bool, b: int)
    requires 0 <= b < |m|
    ensures PutAll(m, bs, v)[b] == if b in bs then v else m[b]
  {
    if bs != [] {
      PutAllAt(m, bs[..|bs| - 1], v, b);
      assert bs == bs[..|bs| - 1] + [bs[|bs| - 1]];
    }
  }

  /** Setting free blocks costs as many clear bits as there are blocks. */
  lemma {:induction false} SetCount(m: seq<bool>, bs: seq<int>)
    requires FreeBlocks(m, bs)
    ensures CountFalse(PutAll(m, bs, true)) == CountFalse(m) - |bs|
  {
    if bs != [] {
      var before, b := bs[..|bs| - 1], bs[|bs| - 1];
      SetCount(m, before);
      PutAllAt(m, before, true, b);
      CountFalseUpdate(PutAll(m, before, true), b, true);
    }
  }

  /** Clearing allocated blocks gains as many, and every `free_block` finds its bit set. */
  lemma {:induction false} ClearCount(m: seq<bool>, bs: seq<int>)
    requires Distinct(bs) && forall k :: 0 <= k < |bs| ==> 0 <= bs[k] < |m| && m[bs[k]]
    ensures CountFalse(PutAll(m, bs, false)) == CountFalse(m) + |bs| && Freed(m, bs) == |bs|
  {
    if bs != [] {
      var before, b := bs[..|bs| - 1], bs[|bs| - 1];
      ClearCount(m, before);
      PutAllAt(m, before, false, b);
      CountFalseUpdate(PutAll(m, before, false), b, false);
    }
  }

  /** `get_block` succeeds exactly when the count says so. */
  lemma FirstFreeSucceeds(m: seq<bool>)
    ensures FirstFree(m, 0) >= 0 <==> CountFalse(m) > 0
  {
    CountFalsePositive(m);
  }

  /** With enough clear bits, no `get_block` of a row of them fails, and they return different free blocks. */
  lemma {:induction false} AllocSucceeds(m: seq<bool>, n: nat)
    requires n <= CountFalse(m)
    ensures FreeBlocks(m, Alloc(m, n))
  {
    if n > 0 {
      var before := Alloc(m, n - 1);
      AllocSucceeds(m, n - 1);
      SetCount(m, before);
      var rest := PutAll(m, before, true);
      FirstFreeSucceeds(rest);
      var b := FirstFree(rest, 0);
      PutAllAt(m, before, true, b);
    }
  }

  lemma {:induction false} AllocPrefix(m: seq<bool>, n: nat, k: nat)
    requires k <= n
    ensures Alloc(m, n)[..k] == Alloc(m, k)
  {
    if k < n {
      AllocPrefix(m, n - 1, k);
      assert Alloc(m, n)[..k] == Alloc(m, n - 1)[..k];
    }
  }

  // ---- what a disk write leaves alone ----

  ghost predicate SameOutside(d: seq<Block>, e: seq<Block>, bs: seq<int>) {
    |d| == |e| && forall b :: 0 <= b < |d| && b !in bs ==> e[b] == d[b]
  }

  /** An inode none of whose blocks is written keeps its blocks, its contents and its listing. */
  lemma InodeUntouched(d: seq<Block>, e: seq<Block>, bs: seq<int>, n: Inode)
    requires SameOutside(d, e, bs)
    requires forall b :: b in Owned(d, n) ==> b !in bs
    ensures Owned(e, n) == Owned(d, n) && DataBlocks(e, n) == DataBlocks(d, n)
    ensures Contents(e, n) == Contents(d, n)
    ensures n.direct != [] ==> ListingAt(e, DirBlock(n)) == ListingAt(d, DirBlock(n))
  {
    if n.blockCount > DIRECT {
      assert Owned(d, n)[|Owned(d, n)| - 1] == n.indirect;
      assert PointersAt(e, n.indirect) == PointersAt(d, n.indirect);
    }
    forall k | 0 <= k < |DataBlocks(d, n)| ensures BytesAt(e, DataBlocks(d, n)[k]) == BytesAt(d, DataBlocks(d, n)[k]) {
      assert Owned(d, n)[k] == DataBlocks(d, n)[k];
    }
    if n.direct != [] {
      assert Owned(d, n)[0] == n.direct[0];
    }
  }

  lemma {:induction false} WriteAllAt(d: seq<Block>, bs: seq<int>, cs: seq<seq<char>>)
    requires |bs| == |cs| && Distinct(bs) && forall k :: 0 <= k < |bs| ==> 0 <= bs[k] < |d|
    ensures SameOutside(d, WriteAll(d, bs, cs), bs)
    ensures forall k :: 0 <= k < |bs| ==> WriteAll(d, bs, cs)[bs[k]] == Data(cs[k])
  {
    if bs != [] {
      var n := |bs| - 1;
      var before, after := WriteAll(d, bs[..n], cs[..n]), WriteAll(d, bs, cs);
      WriteAllAt(d, bs[..n], cs[..n]);
      assert after == before[bs[n] := Data(cs[n])];
      forall k | 0 <= k < |bs| ensures after[bs[k]] == Data(cs[k]) {
        if k < n { assert bs[..n][k] == bs[k] && bs[k] != bs[n]; }
      }
      forall b | 0 <= b < |d| && b !in bs ensures after[b] == d[b] {
        assert bs[n] in bs && b !in bs[..n];
      }
    }
  }

  // ---- counting names ----

  lemma {:induction false} CountAppend(xs: seq<nat>, y: nat, x: nat)
    ensures Count(xs + [y], x) == Count(xs, x) + if x == y then 1 else 0
  {
    if xs != [] {
      assert (xs + [y])[1..] == xs[1..] + [y];
      CountAppend(xs[1..], y, x);
    }
  }

  lemma {:induction false} CountAbsent(xs: seq<nat>, x: nat)
    ensures Count(xs, x) == 0 <==> x !in xs
  {
    if xs != [] {
      CountAbsent(xs[1..], x);
    }
  }

  lemma NamedAdded(d: Dentry, name: seq<char>, i: nat, from: nat)
    requires Shaped(d) && d.numEntry < MAX_DIR_ENTRY && |name| < MAX_FILE_NAME && from <= d.numEntry
    ensures Named(AddEntry(d, name, i), from) == Named(d, from) + [i]
  {
  }

  lemma {:induction false} CStrWritten(buf: seq<char>, name: seq<char>)
    requires |name| < |buf| && '\0' !in name
    ensures CStr(Written(buf, name)) == name
  {
    if name != [] {
      assert Written(buf, name)[1..] == Written(buf[1..], name[1..]);
      CStrWritten(buf[1..], name[1..]);
    }
  }

  // ---- the new inode ----

  /** `t` is `s` with the new inode `i`, which owns exactly the blocks `bs`, and an entry for it. */
  ghost predicate Grown(s: Fs, t: Fs, i: nat, bs: seq<int>, name: seq<char>) {
    && |s.inodeMap| == |s.inodes| && i < |s.inodeMap| && !s.inodeMap[i]
    && FreeBlocks(s.blockMap, bs)
    && t.inodeMap == s.inodeMap[i := true] && t.freeInodes == s.freeInodes - 1
    && t.blockMap == PutAll(s.blockMap, bs, true) && t.freeBlocks == s.freeBlocks - |bs|
    && |t.inodes| == |s.inodes| && (forall j :: 0 <= j < |s.inodes| && j != i ==> t.inodes[j] == s.inodes[j])
    && SameOutside(s.disk, t.disk, bs) && t.curBlock == s.curBlock
    && Shaped(s.cur) && s.cur.numEntry < MAX_DIR_ENTRY && ValidName(name) && t.cur == AddEntry(s.cur, name, i)
    && Distinct(Owned(t.disk, t.inodes[i])) && (forall b :: b in Owned(t.disk, t.inodes[i]) <==> b in bs)
    && t.inodes[i].linkCount == 1
    && (t.inodes[i].kind == Directory ==> name != DOT && name != DOTDOT)
  }

  function Grow(g: Tree, i: nat, bs: seq<int>): Tree
    requires g.here in g.depth
  {
    Tree(g.up[i := g.here], g.depth[i := g.depth[g.here] + 1], g.owner + (map b | b in bs :: i), g.here)
  }

  /** Free blocks are nobody's. */
  lemma FreeIsUnowned(s: Fs, g: Tree, bs: seq<int>)
    requires Sized(s) && BlocksRight(s, g) && FreeBlocks(s.blockMap, bs)
    ensures forall b :: b in bs ==> b !in g.owner && RESERVED <= b < |s.blockMap|
  {
    forall b | b in bs ensures b !in g.owner && RESERVED <= b < |s.blockMap| {
      var k :| 0 <= k < |bs| && bs[k] == b;
      assert !s.blockMap[b];
    }
  }

  /** An inode that was live is untouched, blocks, contents and listing. */
  lemma OldInode(s: Fs, g: Tree, t: Fs, i: nat, bs: seq<int>, name: seq<char>, j: nat)
    requires InvBy(s, g) && Grown(s, t, i, bs, name) && Live(s, j)
    ensures j != i && InodeAt(t, j) == InodeAt(s, j) && Live(t, j)
    ensures Owned(t.disk, InodeAt(t, j)) == Owned(s.disk, InodeAt(s, j))
    ensures DataBlocks(t.disk, InodeAt(t, j)) == DataBlocks(s.disk, InodeAt(s, j))
    ensures Contents(t.disk, InodeAt(t, j)) == Contents(s.disk, InodeAt(s, j))
    ensures InodeAt(s, j).direct != [] ==>
              ListingAt(t.disk, DirBlock(InodeAt(t, j))) == ListingAt(s.disk, DirBlock(InodeAt(s, j)))
    ensures forall b :: b in Owned(s.disk, InodeAt(s, j)) ==> b in g.owner && b !in bs
  {
    hide FilesRight, DirsRight, LinksRight, Contents;
    var n := InodeAt(s, j);
    FreeIsUnowned(s, g, bs);
    forall b | b in Owned(s.disk, n) ensures b in g.owner && b !in bs {
      assert g.owner[b] == j;
    }
    InodeUntouched(s.disk, t.disk, bs, n);
  }

  lemma GrownSized(s: Fs, g: Tree, t: Fs, i: nat, bs: seq<int>, name: seq<char>)
    requires InvBy(s, g) && Grown(s, t, i, bs, name)
    ensures Sized(t)
  {
    hide FilesRight, DirsRight, LinksRight, OwnersRight, BlocksRight;
    SetCount(s.blockMap, bs);
    CountFalseUpdate(s.inodeMap, i, true);
  }

  lemma HereHasDepth(s: Fs, g: Tree)
    requires InvBy(s, g)
    ensures g.here in g.depth && LiveDir(s, g.here)
  {
    hide OwnersRight, BlocksRight, FilesRight, DirsRight, Sized;
  }

  lemma GrownBlocks(s: Fs, g: Tree, t: Fs, i: nat, bs: seq<int>, name: seq<char>)
    requires InvBy(s, g) && Grown(s, t, i, bs, name) && g.here in g.depth
    ensures BlocksRight(t, Grow(g, i, bs))
  {
    hide OwnersRight, FilesRight, DirsRight, LinksRight, Owned;
    var h := Grow(g, i, bs);
    FreeIsUnowned(s, g, bs);
    forall b | 0 <= b < |t.blockMap| ensures t.blockMap[b] <==> b < RESERVED || b in h.owner {
      PutAllAt(s.blockMap, bs, true, b);
    }
  }

  lemma GrownOwners(s: Fs, g: Tree, t: Fs, i: nat, bs: seq<int>, name: seq<char>)
    requires InvBy(s, g) && Grown(s, t, i, bs, name) && g.here in g.depth
    ensures OwnersRight(t, Grow(g, i, bs))
  {
    hide BlocksRight, FilesRight, DirsRight, LinksRight, Sized, Owned, RootRight, HereRight, PutAll,
         FreeBlocks, SameOutside, AddEntry, ValidName, Shaped;
    var h := Grow(g, i, bs);
    forall j | Live(s, j)
      ensures j != i && InodeAt(t, j) == InodeAt(s, j) && Owned(t.disk, InodeAt(t, j)) == Owned(s.disk, InodeAt(s, j))
      ensures forall b :: b in Owned(s.disk, InodeAt(s, j)) ==> b in g.owner && b !in bs
    {
      OldInode(s, g, t, i, bs, name, j);
    }
    assert InodeAt(t, i) == t.inodes[i];
    forall b | b in h.owner ensures Live(t, h.owner[b]) && b in Owned(t.disk, InodeAt(t, h.owner[b])) {}
    forall j | Live(t, j) ensures Distinct(Owned(t.disk, InodeAt(t, j))) {}
  }

  /** Only the current directory's block is the current block. */
  lemma HereIsOnly(s: Fs, g: Tree, d: nat)
    requires InvBy(s, g) && LiveDir(s, d)
    ensures DirInodeRight(s, d) && (DirBlock(InodeAt(s, d)) == s.curBlock <==> d == g.here)
    ensures Dir(s, d) == if d == g.here then s.cur else ListingAt(s.disk, DirBlock(InodeAt(s, d)))
  {
    hide BlocksRight, FilesRight, LinksRight, Sized, EntriesRight, DotsRight;
    assert DirRight(s, g, d) && DirRight(s, g, g.here);
    assert Owned(s.disk, InodeAt(s, d))[0] == DirBlock(InodeAt(s, d));
    assert DirBlock(InodeAt(s, d)) in Owned(s.disk, InodeAt(s, d));
    assert Owned(s.disk, InodeAt(s, g.here))[0] == s.curBlock;
    assert s.curBlock in Owned(s.disk, InodeAt(s, g.here));
  }

  lemma GrownFiles(s: Fs, g: Tree, t: Fs, i: nat, bs: seq<int>, name: seq<char>)
    requires InvBy(s, g) && Grown(s, t, i, bs, name)
    requires t.inodes[i].kind == File ==> FileRight(t, i)
    ensures FilesRight(t)
  {
    hide OwnersRight, BlocksRight, DirsRight, LinksRight, Sized, Owned, Contents, Readable, DataBlocks;
    forall f | LiveFile(t, f) ensures FileRight(t, f) {
      if f != i {
        OldInode(s, g, t, i, bs, name, f);
        assert FileRight(s, f);
      }
    }
  }

  /** Where an old directory's listing is now. */
  lemma OldListing(s: Fs, g: Tree, t: Fs, i: nat, bs: seq<int>, name: seq<char>, d: nat)
    requires InvBy(s, g) && Grown(s, t, i, bs, name) && LiveDir(s, d)
    ensures d != i && LiveDir(t, d) && DirInodeRight(t, d)
    ensures Dir(t, d) == if d == g.here then AddEntry(s.cur, name, i) else Dir(s, d)
  {
    hide OwnersRight, BlocksRight, FilesRight, LinksRight, Sized, Contents, DataBlocks;
    HereIsOnly(s, g, d);
    OldInode(s, g, t, i, bs, name, d);
    var b := DirBlock(InodeAt(s, d));
    assert b !in bs by { assert Owned(s.disk, InodeAt(s, d))[0] == b; }
  }

  /** An entry of an old directory is still right. */
  lemma OldEntry(s: Fs, g: Tree, t: Fs, i: nat, bs: seq<int>, name: seq<char>, d: nat, k: nat)
    requires InvBy(s, g) && Grown(s, t, i, bs, name) && LiveDir(s, d) && g.here in g.depth
    requires Dots(d) <= k < Dir(s, d).numEntry && k < |Dir(s, d).slots|
    ensures EntryRight(t, Grow(g, i, bs), Dir(s, d).slots[k], d)
  {
    hide OwnersRight, BlocksRight, FilesRight, LinksRight, Sized, Owned, Contents, DataBlocks, CStr, Grown, DotsRight;
    assert DirRight(s, g, d);
    assert EntryRight(s, g, Dir(s, d).slots[k], d);
    OldInode(s, g, t, i, bs, name, Dir(s, d).slots[k].inode);
  }

  lemma NewEntry(s: Fs, g: Tree, t: Fs, i: nat, bs: seq<int>, name: seq<char>)
    requires InvBy(s, g) && Grown(s, t, i, bs, name) && g.here in g.depth
    ensures EntryRight(t, Grow(g, i, bs), t.cur.slots[s.cur.numEntry], g.here)
  {
    hide OwnersRight, BlocksRight, FilesRight, LinksRight, DirsRight, Sized, Owned, Contents, DataBlocks, CStr;
    CStrWritten(s.cur.slots[s.cur.numEntry].name, name);
  }

  /** The entries of an old directory are still right, and so is the new one. */
  lemma GrownEntries(s: Fs, g: Tree, t: Fs, i: nat, bs: seq<int>, name: seq<char>, d: nat)
    requires InvBy(s, g) && Grown(s, t, i, bs, name) && LiveDir(s, d) && g.here in g.depth
    ensures EntriesRight(t, Grow(g, i, bs), Dir(t, d), d)
  {
    hide OwnersRight, BlocksRight, FilesRight, DirsRight, LinksRight, Sized, EntryRight, DirInodeRight, ValidName;
    OldListing(s, g, t, i, bs, name, d);
    HereIsOnly(s, g, d);
    HereDots(s, g);
    var l, m := Dir(s, d), Dir(t, d);
    forall k | Dots(d) <= k < m.numEntry && k < |m.slots| ensures EntryRight(t, Grow(g, i, bs), m.slots[k], d) {
      if k < l.numEntry && k < |l.slots| {
        assert m.slots[k] == l.slots[k];
        OldEntry(s, g, t, i, bs, name, d, k);
      } else {
        NewEntry(s, g, t, i, bs, name);
      }
    }
  }

  lemma GrownDir(s: Fs, g: Tree, t: Fs, i: nat, bs: seq<int>, name: seq<char>, d: nat)
    requires InvBy(s, g) && Grown(s, t, i, bs, name) && LiveDir(s, d) && g.here in g.depth
    ensures DirRight(t, Grow(g, i, bs), d)
  {
    hide OwnersRight, BlocksRight, FilesRight, LinksRight, Sized, EntriesRight, CStr;
    OldListing(s, g, t, i, bs, name, d);
    HereDots(s, g);
    HereIsOnly(s, g, d);
    GrownEntries(s, g, t, i, bs, name, d);
    assert DirRight(s, g, d);
  }

  /** The new directory, if it is one, holds its dot entries and nothing else. */
  ghost predicate NewDirRight(t: Fs, i: nat, parent: nat) {
    && DirInodeRight(t, i) && DirBlock(InodeAt(t, i)) != t.curBlock && Dir(t, i).numEntry == 2 &&
       DotsRight(Dir(t, i), i, parent)
  }

  lemma GrownDirs(s: Fs, g: Tree, t: Fs, i: nat, bs: seq<int>, name: seq<char>)
    requires InvBy(s, g) && Grown(s, t, i, bs, name) && g.here in g.depth
    requires t.inodes[i].kind == Directory ==> NewDirRight(t, i, g.here)
    ensures DirsRight(t, Grow(g, i, bs))
  {
    hide OwnersRight, BlocksRight, FilesRight, LinksRight, Sized, Owned, Contents, DataBlocks, CStr;
    forall d | LiveDir(t, d) ensures DirRight(t, Grow(g, i, bs), d) {
      if d != i {
        assert InodeAt(t, d) == InodeAt(s, d);
        GrownDir(s, g, t, i, bs, name, d);
      }
    }
  }

  /** Names of old inodes are as many as before, and the new inode has one. */
  lemma GrownLinks(s: Fs, g: Tree, t: Fs, i: nat, bs: seq<int>, name: seq<char>)
    requires InvBy(s, g) && Grown(s, t, i, bs, name) && g.here in g.depth
    ensures LinksRight(t, Grow(g, i, bs))
  {
    hide OwnersRight, BlocksRight, FilesRight, Sized, Owned, Contents, DataBlocks, CStr, DirsRight;
    var h := Grow(g, i, bs);
    forall j | Live(t, j) && j != ROOT ensures LinkRight(t, h, j) {
      if j == i {
        NewLink(s, g, t, i, bs, name);
      } else {
        OldLink(s, g, t, i, bs, name, j);
      }
    }
  }

  lemma HereDots(s: Fs, g: Tree)
    requires InvBy(s, g)
    ensures Shaped(s.cur) && Dots(g.here) <= s.cur.numEntry && Dir(s, g.here) == s.cur &&
            EntriesRight(s, g, s.cur, g.here)
    ensures DotsRight(s.cur, g.here, ParentOf(g, g.here))
  {
    hide OwnersRight, BlocksRight, FilesRight, LinksRight, Sized;
    assert DirRight(s, g, g.here);
  }

  lemma NewLink(s: Fs, g: Tree, t: Fs, i: nat, bs: seq<int>, name: seq<char>)
    requires InvBy(s, g) && Grown(s, t, i, bs, name) && g.here in g.depth
    ensures LinkRight(t, Grow(g, i, bs), i)
  {
    hide OwnersRight, BlocksRight, FilesRight, Sized, Owned, Contents, DataBlocks, CStr, DirsRight, LinksRight;
    HereDots(s, g);
    OldListing(s, g, t, i, bs, name, g.here);
    var named := Named(s.cur, Dots(g.here));
    NamedAdded(s.cur, name, i, Dots(g.here));
    CountAppend(named, i, i);
    assert i !in named;
    CountAbsent(named, i);
  }

  lemma OldLink(s: Fs, g: Tree, t: Fs, i: nat, bs: seq<int>, name: seq<char>, j: nat)
    requires InvBy(s, g) && Grown(s, t, i, bs, name) && g.here in g.depth && Live(t, j) && j != i && j != ROOT
    ensures LinkRight(t, Grow(g, i, bs), j)
  {
    hide OwnersRight, BlocksRight, FilesRight, Sized, Owned, Contents, DataBlocks, CStr, DirsRight,
         EntriesRight, DotsRight;
    assert LinkRight(s, g, j);
    var d := g.up[j];
    OldInode(s, g, t, i, bs, name, j);
    OldListing(s, g, t, i, bs, name, d);
    HereDots(s, g);
    if d == g.here {
      NamedAdded(s.cur, name, i, Dots(d));
      CountAppend(Named(s.cur, Dots(d)), i, j);
    }
  }

  /** A grown file system satisfies the invariant. */
  lemma {:induction false} GrownKeepsInv(s: Fs, g: Tree, t: Fs, i: nat, bs: seq<int>, name: seq<char>)
    requires InvBy(s, g) && Grown(s, t, i, bs, name)
    requires t.inodes[i].kind == File ==> FileRight(t, i)
    requires t.inodes[i].kind == Directory ==> NewDirRight(t, i, g.here)
    ensures g.here in g.depth && InvBy(t, Grow(g, i, bs))
  {
    hide FileRight, NewDirRight, OwnersRight, BlocksRight, FilesRight, DirsRight, LinksRight, Sized, Owned, Contents;
    HereHasDepth(s, g);
    GrownSized(s, g, t, i, bs, name);
    GrownBlocks(s, g, t, i, bs, name);
    GrownOwners(s, g, t, i, bs, name);
    GrownFiles(s, g, t, i, bs, name);
    GrownDirs(s, g, t, i, bs, name);
    GrownLinks(s, g, t, i, bs, name);
    OldInode(s, g, t, i, bs, name, ROOT);
    OldInode(s, g, t, i, bs, name, g.here);
  }
}
