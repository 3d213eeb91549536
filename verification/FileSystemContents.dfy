/** What files hold: create and copy read back through cat, whatever happens to other files, and what rm gives back. */
module FileSystemContents {
  import opened Sequences
  import opened FileSystemModel
  import opened FileSystemInvariant
  import opened FileSystemGrowth
  import opened FileSystemCreation
  import opened FileSystemRemoval
  import opened FileSystemRuns
  import opened FileSystemTheorems
  import opened FileSystemTree

  // ---- cat ----

  function Flat(cs: seq<seq<char>>): seq<char> {
    if cs == [] then [] else cs[0] + Flat(cs[1..])
  }

  lemma PlainCStr(buf: seq<char>, n: nat)
    requires n < |buf| && '\0' !in buf[..n] && buf[n] == '\0'
    ensures CStr(buf) == buf[..n]
  {
    CStrPrefix(buf[..n], buf[n..]);
    assert buf == buf[..n] + buf[n..];
  }

  /**
   The first block prints as much of the file as it holds: the NUL that ends it is in the data, one
   byte before the one cat writes.
   */
  lemma CatBlockPrints(cs: seq<seq<char>>, left: nat)
    requires left > 0 && Readable(cs, left)
    ensures cs != [] && CatBlock(cs[0], left) == if left >= BLOCK_SIZE then cs[0] else cs[0][..left]
  {
    hide CStr;
    var n := if left >= BLOCK_SIZE then BLOCK_SIZE else left;
    var buf := cs[0] + ['\0'];
    forall j | 0 <= j < n ensures buf[j] != '\0' {
      assert cs[0][j] == buf[j] && 0 * BLOCK_SIZE + j < left;
    }
    assert left < BLOCK_SIZE ==> |cs| == 1 && left % BLOCK_SIZE == left;
    assert buf[n] == '\0';
    if left + 1 < |buf| {
      var cut := buf[left + 1 := '\0'];
      assert cut[..n] == buf[..n];
      PlainCStr(cut, n);
    } else {
      PlainCStr(buf, n);
    }
  }

  lemma RestIsReadable(cs: seq<seq<char>>, left: nat)
    requires left > BLOCK_SIZE && Readable(cs, left)
    ensures cs != [] && Readable(cs[1..], left - BLOCK_SIZE)
  {
    var rest := cs[1..];
    assert BlocksFor(left) == BlocksFor(left - BLOCK_SIZE) + 1;
    assert rest[|rest| - 1] == cs[|cs| - 1];
    forall i, j | 0 <= i < |rest| && 0 <= j < BLOCK_SIZE && i * BLOCK_SIZE + j < left - BLOCK_SIZE
      ensures rest[i][j] != '\0'
    {
      assert cs[i + 1][j] == rest[i][j] && (i + 1) * BLOCK_SIZE + j < left;
    }
  }

  lemma {:induction false} CatBlocksPrint(cs: seq<seq<char>>, left: nat)
    requires left > 0 && Readable(cs, left)
    ensures left <= |Flat(cs)| && CatBlocks(cs, left) == Flat(cs)[..left]
  {
    hide CatBlock, Readable;
    CatBlockPrints(cs, left);
    FirstIsFull(cs, left);
    if left > BLOCK_SIZE {
      RestIsReadable(cs, left);
      CatBlocksPrint(cs[1..], left - BLOCK_SIZE);
      assert Flat(cs)[..left] == cs[0] + Flat(cs[1..])[..left - BLOCK_SIZE];
    } else {
      assert Flat(cs)[..left] == cs[0][..left];
    }
  }

  lemma FirstIsFull(cs: seq<seq<char>>, left: nat)
    requires left > 0 && Readable(cs, left)
    ensures cs != [] && |cs[0]| == BLOCK_SIZE && (left <= BLOCK_SIZE ==> cs[1..] == [])
  {
  }

  /** Cat prints the file: its first `size` bytes, and nothing else. */
  lemma {:induction false} CatPrintsFile(s: Fs, g: Tree, f: nat)
    requires InvBy(s, g) && LiveFile(s, f)
    ensures var n := InodeAt(s, f);
            && 0 < n.size <= |Flat(Contents(s.disk, n))|
            && Cat(s, f) == Flat(Contents(s.disk, n))[..n.size]
  {
    hide OwnersRight, BlocksRight, DirsRight, LinksRight, Sized, Contents, Readable;
    assert FileRight(s, f);
    CatBlocksPrint(Contents(s.disk, InodeAt(s, f)), InodeAt(s, f).size);
  }

  lemma {:induction false} FlatChop(buf: seq<char>, n: nat)
    requires |buf| == n * BLOCK_SIZE
    ensures Flat(Chop(buf, n)) == buf
  {
    if n > 0 {
      var m := (n - 1) * BLOCK_SIZE;
      FlatChop(buf[..m], n - 1);
      ChopPrefix(buf[..m], buf, n - 1);
      FlatAppend(Chop(buf, n - 1), buf[m..n * BLOCK_SIZE]);
      assert buf == buf[..m] + buf[m..n * BLOCK_SIZE];
    }
  }

  lemma {:induction false} ChopPrefix(a: seq<char>, b: seq<char>, n: nat)
    requires n * BLOCK_SIZE <= |a| <= |b| && a == b[..|a|]
    ensures Chop(a, n) == Chop(b, n)
  {
    if n > 0 {
      ChopPrefix(a, b, n - 1);
      assert a[(n - 1) * BLOCK_SIZE..n * BLOCK_SIZE] == b[(n - 1) * BLOCK_SIZE..n * BLOCK_SIZE];
    }
  }

  lemma {:induction false} FlatAppend(cs: seq<seq<char>>, c: seq<char>)
    ensures Flat(cs + [c]) == Flat(cs) + c
  {
    if cs != [] {
      assert (cs + [c])[1..] == cs[1..] + [c];
      FlatAppend(cs[1..], c);
    }
  }

  // ---- create, then cat ----

  /** The name just added is found, if it was not there before. */
  lemma {:induction false} AddedIsFound(d: Dentry, name: seq<char>, i: nat, k: nat)
    requires Shaped(d) && d.numEntry < MAX_DIR_ENTRY && ValidName(name)
    requires k <= d.numEntry && FindFrom(d, name, k) == d.numEntry
    ensures FindFrom(AddEntry(d, name, i), name, k) == d.numEntry
    decreases d.numEntry - k
  {
    hide CStr, Written;
    CStrWritten(d.slots[d.numEntry].name, name);
    if k < d.numEntry {
      AddedIsFound(d, name, i, k + 1);
    }
  }

  lemma NotFoundAtEnd(d: Dentry, name: seq<char>)
    requires Shaped(d) && Search(d, name) < 0
    ensures FindFrom(d, name, 0) == d.numEntry
  {
  }

  /** Whatever the size, creating a file and reading it by its name prints exactly the generated characters. */
  lemma {:induction false} CreateThenCat(s: Fs, g: Tree, name: seq<char>, size: int, buf: seq<char>)
    requires InvBy(s, g) && ValidName(name) && (0 < size <= MAX_SIZE ==> Generated(buf, size))
    ensures Shaped(s.cur)
    ensures var (t, r) := Create(s, name, size, buf);
            r == Ok ==>
              && Shaped(t.cur) && LiveFile(t, Search(t.cur, name))
              && size <= |buf| && Cat(t, Search(t.cur, name)) == buf[..size]
  {
    hide InvBy, Create, Grown, Grow, Contents, Alloc, Cat, Generated, FindFrom, CStr, AddEntry;
    if 0 < size <= MAX_SIZE { GeneratedSize(buf, size); }
    CreateKeepsInv(s, g, name, size, buf);
    var (t, r) := Create(s, name, size, buf);
    if r == Ok {
      var i, bs := FirstFree(s.inodeMap, 0), Alloc(s.blockMap, Needed(size));
      CreatedName(s, name, size, buf);
      GrownName(s, t, i, bs, name);
      CatPrintsFile(t, Grow(g, i, bs), i);
      FlatChop(buf, BlocksFor(size));
    }
  }

  lemma GeneratedSize(buf: seq<char>, size: nat)
    requires Generated(buf, size)
    ensures |buf| == BlocksFor(size) * BLOCK_SIZE && size <= |buf|
  {
  }

  lemma CreatedName(s: Fs, name: seq<char>, size: int, buf: seq<char>)
    requires Shaped(s.cur) && ValidName(name) && (0 < size <= MAX_SIZE ==> |buf| == BlocksFor(size) * BLOCK_SIZE)
    ensures Create(s, name, size, buf).1 == Ok ==> Search(s.cur, name) < 0
  {
  }

  /** A new entry under a fresh name leads to the new inode. */
  lemma GrownName(s: Fs, t: Fs, i: nat, bs: seq<int>, name: seq<char>)
    requires Shaped(s.cur) && Grown(s, t, i, bs, name) && Search(s.cur, name) < 0
    ensures Shaped(t.cur) && Search(t.cur, name) == i && FindFrom(t.cur, name, 0) == s.cur.numEntry
  {
    hide CStr, PutAll, Owned;
    NotFoundAtEnd(s.cur, name);
    AddedIsFound(s.cur, name, i, 0);
  }

  // ---- copies ----

  /** Two inodes with no block in common. */
  ghost predicate NoSharedBlock(s: Fs, i: nat, j: nat) {
    forall b :: !(Owns(s, i, b) && Owns(s, j, b))
  }

  /**
   A copy has the size and contents of its source and prints the same, shares no block with any
   other inode, and leaves the source as it was.
   */
  lemma {:induction false} CopyIsIndependent(s: Fs, g: Tree, src: seq<char>, dest: seq<char>)
    requires InvBy(s, g) && ValidName(dest)
    ensures Shaped(s.cur)
    ensures var j := Search(s.cur, src); InodeAt(s, j).kind == File && j >= 0 ==> FileShaped(s.disk, InodeAt(s, j))
    ensures var (t, r) := Copy(s, src, dest);
            r == Ok ==>
              var i, j := FirstFree(s.inodeMap, 0), Search(s.cur, src);
              && j >= 0 && i >= 0 && !Live(s, i) && LiveFile(t, i) && SameFile(s, t, j)
              && InodeAt(t, i).size == InodeAt(s, j).size
              && Contents(t.disk, InodeAt(t, i)) == Contents(s.disk, InodeAt(s, j))
              && Cat(t, i) == Cat(s, j) == Cat(t, j)
              && (forall k: nat :: k != i ==> NoSharedBlock(t, i, k))
  {
    hide InvBy, Copy, Grown, Grow, Contents, Alloc, DataBlocks, FileShaped, CatBlocks, Owns;
    CopyKeepsInv(s, g, src, dest);
    var (t, r) := Copy(s, src, dest);
    if r == Ok {
      var i, j := FirstFree(s.inodeMap, 0), Search(s.cur, src);
      var bs := Alloc(s.blockMap, Needed(InodeAt(s, j).size));
      OldInode(s, g, t, i, bs, dest, j);
      BlocksAreOwned(t, Grow(g, i, bs));
    }
  }

  /** Removing either file of a copy leaves the other with its contents. */
  lemma {:induction false} RemovingOneKeepsOther(s: Fs, g: Tree, name: seq<char>, f: nat)
    requires InvBy(s, g) && LiveFile(s, f) && Shaped(s.cur) && Search(s.cur, name) != f
    ensures var (t, _) := Remove(s, name); LiveFile(t, f) && SameFile(s, t, f) && Cat(t, f) == Cat(s, f)
  {
    hide InvBy, Unlink, Contents, DataBlocks, CatBlocks;
    FoundFileIsRemovable(s, g, name);
    var (t, r) := Remove(s, name);
    if r == Ok {
      var i, k := Search(s.cur, name), FindFrom(s.cur, name, 0);
      UnlinkMaps(s, g, i, k);
      RemoveFrame(s, g, name);
      assert InodeAt(t, f) == InodeAt(s, f) && Live(t, f);
    }
  }

  // ---- files over whole runs ----

  /** File `f` is there in every state of the run. */
  ghost predicate Survives(s: Fs, cs: seq<Command>, f: nat)
    requires Inv(s) && Legal(s, cs)
    decreases |cs|
  {
    LiveFile(s, f) && (cs != [] ==> Survives(Execute(s, cs[0]).0, cs[1..], f))
  }

  /** No command writes to a file: while it is there, a file prints what it printed when it was made. */
  lemma {:induction false} FilesNeverChange(s: Fs, cs: seq<Command>, f: nat)
    requires Inv(s) && Legal(s, cs) && Survives(s, cs, f)
    ensures SameFile(s, RunAll(s, cs), f) && Cat(RunAll(s, cs), f) == Cat(s, f)
    decreases |cs|
  {
    hide Inv, Contents, DataBlocks, CatBlocks, Admissible;
    if cs != [] {
      StepKeepsFile(s, cs[0], f);
      FilesNeverChange(Execute(s, cs[0]).0, cs[1..], f);
    }
  }

  lemma StepKeepsFile(s: Fs, c: Command, f: nat)
    requires Inv(s) && Admissible(s, c) && LiveFile(s, f) && LiveFile(Execute(s, c).0, f)
    ensures SameFile(s, Execute(s, c).0, f)
  {
    hide InvBy, Effect, Contents, DataBlocks, AncestorsKept, SameFile;
    var g :| InvBy(s, g);
    CopyIsReady(s, c);
    CommandKeepsOthers(s, g, c);
  }

  // ---- create, then rm ----

  lemma {:induction false} PutAllBack(m: seq<bool>, bs: seq<int>)
    requires FreeBlocks(m, bs)
    ensures forall cs :: (forall b :: b in cs <==> b in bs) ==> PutAll(PutAll(m, bs, true), cs, false) == m
  {
    forall cs | (forall b :: b in cs <==> b in bs) ensures PutAll(PutAll(m, bs, true), cs, false) == m {
      forall b | 0 <= b < |m| ensures PutAll(PutAll(m, bs, true), cs, false)[b] == m[b] {
        PutAllAt(m, bs, true, b);
        PutAllAt(PutAll(m, bs, true), cs, false, b);
      }
    }
  }

  /** Removing the last entry of a directory moves nothing. */
  lemma AddThenRemove(d: Dentry, name: seq<char>, i: nat)
    requires Shaped(d) && d.numEntry < MAX_DIR_ENTRY && |name| < MAX_FILE_NAME
    ensures var e := RemoveEntry(AddEntry(d, name, i), d.numEntry);
            e.numEntry == d.numEntry && e.slots[..e.numEntry] == d.slots[..d.numEntry]
  {
  }

  /** Creating a file and removing it gives back both bitmaps, both counts and the entries of the directory. */
  lemma {:induction false} CreateThenRemove(s: Fs, g: Tree, name: seq<char>, size: int, buf: seq<char>)
    requires InvBy(s, g) && ValidName(name) && (0 < size <= MAX_SIZE ==> Generated(buf, size))
    ensures Shaped(s.cur)
    ensures var (t, r) := Create(s, name, size, buf);
            r == Ok ==>
              && Shaped(t.cur)
              && var (u, q) := Remove(t, name);
                 && q == Ok
                 && u.inodeMap == s.inodeMap && u.blockMap == s.blockMap
                 && u.freeInodes == s.freeInodes && u.freeBlocks == s.freeBlocks
                 && u.cur.numEntry == s.cur.numEntry && u.cur.slots[..s.cur.numEntry] == s.cur.slots[..s.cur.numEntry]
                 && u.curBlock == s.curBlock
                 && (forall j :: Live(s, j) ==>
                       InodeAt(u, j) == InodeAt(s, j) && Owned(u.disk, InodeAt(u, j)) == Owned(s.disk, InodeAt(s, j)))
  {
    hide InvBy, Create, Grown, Grow, Contents, Alloc, Generated, FindFrom, CStr, AddEntry, RemoveEntry, PutAll,
         Freed, Owned;
    if 0 < size <= MAX_SIZE { GeneratedSize(buf, size); }
    CreateKeepsInv(s, g, name, size, buf);
    var (t, r) := Create(s, name, size, buf);
    if r == Ok {
      var i, bs := FirstFree(s.inodeMap, 0), Alloc(s.blockMap, Needed(size));
      CreatedName(s, name, size, buf);
      GrownName(s, t, i, bs, name);
      GrownThenUnlinked(s, g, t, i, bs, name);
    }
  }

  lemma GrownThenUnlinked(s: Fs, g: Tree, t: Fs, i: nat, bs: seq<int>, name: seq<char>)
    requires InvBy(s, g) && Grown(s, t, i, bs, name) && Shaped(t.cur) && t.cur.numEntry > s.cur.numEntry
    requires InodeAt(t, i).kind == File
    ensures var u := Unlink(t, i, s.cur.numEntry);
            && u.inodeMap == s.inodeMap && u.blockMap == s.blockMap
            && u.freeInodes == s.freeInodes && u.freeBlocks == s.freeBlocks
            && u.cur.numEntry == s.cur.numEntry && u.cur.slots[..s.cur.numEntry] == s.cur.slots[..s.cur.numEntry]
            && u.curBlock == s.curBlock
            && (forall j :: Live(s, j) ==>
                  InodeAt(u, j) == InodeAt(s, j) && Owned(u.disk, InodeAt(u, j)) == Owned(s.disk, InodeAt(s, j)))
  {
    hide InvBy, CStr, AddEntry, RemoveEntry, PutAll, Freed, Owned, FindFrom;
    var owned := Owned(t.disk, t.inodes[i]);
    PutAllBack(s.blockMap, bs);
    SameBlocks(owned, bs);
    forall k | 0 <= k < |owned| ensures 0 <= owned[k] < |t.blockMap| && t.blockMap[owned[k]] {
      assert owned[k] in owned;
      var m :| 0 <= m < |bs| && bs[m] == owned[k];
      PutAllAt(s.blockMap, bs, true, owned[k]);
    }
    ClearCount(t.blockMap, owned);
    AddThenRemove(s.cur, name, i);
    forall j | Live(s, j)
      ensures j != i && InodeAt(t, j) == InodeAt(s, j)
      ensures Owned(t.disk, InodeAt(t, j)) == Owned(s.disk, InodeAt(s, j))
    {
      OldInode(s, g, t, i, bs, name, j);
    }
  }

  /** Duplicate-free sequences of the same elements are equally long. */
  lemma {:induction false} SameBlocks(xs: seq<int>, ys: seq<int>)
    requires Distinct(xs) && Distinct(ys) && forall b :: b in xs <==> b in ys
    ensures |xs| == |ys|
  {
    if xs == [] {
      var y := if ys == [] then 0 else ys[0];
      assert y in ys ==> y in xs;
    } else {
      var x := xs[0];
      assert x in ys;
      WithoutDistinct(ys, x);
      var rest := xs[1..];
      forall b ensures b in rest <==> b in Without(ys, x) {
        if b in Without(ys, x) {
          var k :| 0 <= k < |xs| && xs[k] == b;
          assert rest[k - 1] == b;
        }
      }
      SameBlocks(rest, Without(ys, x));
    }
  }

  // ---- the last name ----

  /**
   Removing a name of a file frees the inode and its blocks exactly when no other entry names it;
   otherwise both bitmaps stay as they are.
   */
  lemma {:induction false} FreedWithLastName(s: Fs, g: Tree, name: seq<char>)
    requires InvBy(s, g)
    ensures Shaped(s.cur)
    ensures var (t, r) := Remove(s, name);
            r == Ok ==>
              var i, names := Search(s.cur, name), Named(s.cur, Dots(g.here));
              && i >= 0 && i in names
              && (forall d :: d != g.here ==> !Holds(s, d, i))
              && (if Count(names, i) == 1 then
                    && !Live(t, i) && t.freeInodes == s.freeInodes + 1
                    && (forall b {:trigger IsSet(t.blockMap, b)} :: IsSet(t.blockMap, b) <==>
                        IsSet(s.blockMap, b) && b !in Owned(s.disk, InodeAt(s, i)))
                  else
                    && Live(t, i) && t.inodeMap == s.inodeMap && t.blockMap == s.blockMap
                    && t.freeInodes == s.freeInodes && t.freeBlocks == s.freeBlocks)
  {
    hide OwnersRight, BlocksRight, FilesRight, DirsRight, LinksRight, Unlink, CStr, Owned, PutAll, Freed;
    FoundFileIsRemovable(s, g, name);
    var (t, r) := Remove(s, name);
    if r == Ok {
      var i, k := Search(s.cur, name), FindFrom(s.cur, name, 0);
      RemovableFacts(s, g, i, k);
      UnlinkMaps(s, g, i, k);
      RemovedCounts(s, g, i, k);
      assert Named(s.cur, Dots(g.here))[k - Dots(g.here)] == i;
      forall d | d != g.here ensures !Holds(s, d, i) {
        if Holds(s, d, i) { NamedIsBelow(s, g, d, i); }
      }
      var bs := Owned(s.disk, InodeAt(s, i));
      if LastName(s, i) {
        forall b ensures IsSet(t.blockMap, b) <==> IsSet(s.blockMap, b) && b !in bs {
          if 0 <= b < |s.blockMap| { PutAllAt(s.blockMap, bs, false, b); }
        }
      }
    }
  }

  lemma RemovedCounts(s: Fs, g: Tree, i: nat, k: nat)
    requires Removable(s, g, i, k) && Shaped(s.cur)
    ensures var t := Unlink(s, i, k);
            if LastName(s, i) then t.freeInodes == s.freeInodes + 1
            else t.freeInodes == s.freeInodes && t.freeBlocks == s.freeBlocks
  {
    hide OwnersRight, BlocksRight, FilesRight, DirsRight, LinksRight, CStr, Owned, PutAll, Freed, RemoveEntry;
    RemovableFacts(s, g, i, k);
  }
}
