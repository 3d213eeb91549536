/** What one turn of each loop of the program does to the value of the file system. */
module FileSystemSteps {
  import opened Sequences
  import opened FileSystemModel
  import opened FileSystemInvariant
  import opened FileSystemGrowth
  import opened FileSystemCreation
  import opened FileSystemRemoval
  import opened FileSystemRuns
  import opened FileSystemFormat

  // ---- filling a file ----

  /** `t` is `s` after `got` calls of `get_block`, with `cs` written to the blocks `data`. */
  ghost predicate Storing(s: Fs, t: Fs, got: nat, data: seq<int>, cs: seq<seq<char>>) {
    && |data| == |cs|
    && t == s.(blockMap := PutAll(s.blockMap, Alloc(s.blockMap, got), true), freeBlocks := s.freeBlocks - got,
       disk := WriteAll(s.disk, data, cs))
  }

  /** One more call of `get_block`. */
  lemma AllocStep(m: seq<bool>, k: nat)
    ensures var b := FirstFree(PutAll(m, Alloc(m, k), true), 0);
            && Alloc(m, k + 1) == Alloc(m, k) + [b]
            && PutAll(m, Alloc(m, k + 1), true) == Put(PutAll(m, Alloc(m, k), true), b, true)
            && (k < CountFalse(m) ==> b >= 0)
  {
    assert Alloc(m, k + 1)[..k] == Alloc(m, k);
    if k < CountFalse(m) { AllocSucceeds(m, k + 1); }
  }

  lemma WriteStep(d: seq<Block>, bs: seq<int>, cs: seq<seq<char>>, b: int, c: seq<char>)
    requires |bs| == |cs|
    ensures WriteAll(d, bs + [b], cs + [c]) == Put(WriteAll(d, bs, cs), b, Data(c))
  {
    assert (bs + [b])[..|bs|] == bs && (cs + [c])[..|cs|] == cs;
  }

  /** The state once a file of `size` holding `cs` is on the disk, before its inode is written. */
  ghost function Stored(s: Fs, size: nat, cs: seq<seq<char>>): (t: Fs)
    requires |cs| == BlocksFor(size)
    ensures t.inodes == s.inodes
  {
    var bs := Alloc(s.blockMap, Needed(size));
    LargeIffIndirect(size);
    s.(blockMap := PutAll(s.blockMap, bs, true), freeBlocks := s.freeBlocks - Needed(size),
       disk := Filled(s.disk, bs, size > DIRECT * BLOCK_SIZE, cs))
  }

  lemma StoredWhole(s: Fs, t: Fs, size: nat, direct: seq<int>, indirect: int, ptrs: seq<int>, cs: seq<seq<char>>)
    requires |cs| == BlocksFor(size) && size > DIRECT * BLOCK_SIZE && |direct| == DIRECT
    requires Alloc(s.blockMap, Needed(size)) == direct + [indirect] + ptrs
    requires Storing(s, t, Needed(size), direct + ptrs, cs)
    ensures t.(disk := Put(t.disk, indirect, Pointers(ptrs))) == Stored(s, size, cs)
    ensures InodeOn(Alloc(s.blockMap, Needed(size)), size) == Inode(File, size, BlocksFor(size), direct, indirect, 1)
  {
    hide WriteAll, Alloc, PutAll;
    LargeIffIndirect(size);
    var bs := direct + [indirect] + ptrs;
    assert bs[..DIRECT] == direct && bs[DIRECT + 1..] == ptrs;
  }

  /** Install is an inode and an entry around the stored file. */
  lemma InstallIsStored(s: Fs, name: seq<char>, size: nat, cs: seq<seq<char>>)
    requires Shaped(s.cur) && s.cur.numEntry < MAX_DIR_ENTRY && |name| < MAX_FILE_NAME
    requires |cs| == BlocksFor(size) && 0 <= FirstFree(s.inodeMap, 0) < |s.inodes|
    ensures var i := FirstFree(s.inodeMap, 0);
            var u := s.(inodeMap := Put(s.inodeMap, i, true), freeInodes := s.freeInodes - 1,
              cur := AddEntry(s.cur, name, i));
            var n := InodeOn(Alloc(s.blockMap, Needed(size)), size);
            Install(s, name, size, cs) == Stored(u, size, cs).(inodes := s.inodes[i := n])
  {
    InstallDisk(s, name, size, cs);
  }

  // ---- reading the source of a copy ----

  /** A file whose blocks are all allocated. */
  ghost predicate Source(s: Fs, f: Inode) {
    && |s.blockMap| == |s.disk| && FileShaped(s.disk, f)
    && forall b :: b in Owned(s.disk, f) ==> 0 <= b < |s.blockMap| && s.blockMap[b]
  }

  lemma SourceFacts(s: Fs, f: Inode)
    requires Source(s, f)
    ensures 0 < f.size <= MAX_SIZE && f.blockCount == BlocksFor(f.size) == |Contents(s.disk, f)|
  {
  }

  lemma SourceBlock(s: Fs, f: Inode, k: nat)
    requires Source(s, f) && k < |Owned(s.disk, f)|
    ensures 0 <= Owned(s.disk, f)[k] < |s.blockMap| == |s.disk| && s.blockMap[Owned(s.disk, f)[k]]
  {
    var b := Owned(s.disk, f)[k];
    assert b in Owned(s.disk, f);
  }

  lemma SourceElsewhere(s: Fs, t: Fs, f: Inode)
    requires Source(s, f) && t.disk == s.disk && t.blockMap == s.blockMap
    ensures Source(t, f)
  {
  }

  /** What copy finds under a name is a source, if it is a file. */
  lemma FoundIsSource(s: Fs, src: seq<char>)
    requires Inv(s) && Shaped(s.cur) && Search(s.cur, src) >= 0
    ensures var i := Search(s.cur, src);
            i < |s.inodes| && InodeAt(s, i) == s.inodes[i] && (s.inodes[i].kind == File ==> Source(s, s.inodes[i]))
  {
    hide OwnersRight, BlocksRight, FilesRight, DirsRight, LinksRight, Owned, Contents, FileShaped, CStr;
    var g :| InvBy(s, g);
    FoundIsLive(s, g, src);
    OwnedAreAllocated(s, g, Search(s.cur, src));
  }

  lemma OwnedAreAllocated(s: Fs, g: Tree, i: nat)
    requires InvBy(s, g) && Live(s, i)
    ensures i < |s.inodes| && |s.blockMap| == |s.disk|
    ensures forall b :: b in Owned(s.disk, InodeAt(s, i)) ==> 0 <= b < |s.blockMap| && s.blockMap[b]
  {
    hide FilesRight, DirsRight, LinksRight, Owned;
    OwnedAreOwners(s, g, i);
  }

  /** A block that was allocated is untouched by what has been stored so far. */
  lemma AllocatedKept(s: Fs, t: Fs, got: nat, data: seq<int>, cs: seq<seq<char>>, b: int)
    requires Storing(s, t, got, data, cs) && got <= CountFalse(s.blockMap) && |s.blockMap| == |s.disk|
    requires data == DataOf(Alloc(s.blockMap, got), got > DIRECT)
    requires 0 <= b < |s.blockMap| && s.blockMap[b]
    ensures BytesAt(t.disk, b) == BytesAt(s.disk, b) && PointersAt(t.disk, b) == PointersAt(s.disk, b)
  {
    hide Alloc, PutAll, WriteAll, DataOf;
    var bs := Alloc(s.blockMap, got);
    AllocSucceeds(s.blockMap, got);
    DataOfFacts(bs, got > DIRECT);
    forall k | 0 <= k < |data| ensures 0 <= data[k] < |s.disk| && data[k] != b {
      assert data[k] in data;
    }
    WriteAllAt(s.disk, data, cs);
  }

  lemma DirectKept(s: Fs, t: Fs, f: Inode, i: nat, cs: seq<seq<char>>)
    requires Source(s, f) && i < DIRECT && i < f.blockCount && i <= CountFalse(s.blockMap)
    requires Storing(s, t, i, Alloc(s.blockMap, i), cs)
    ensures i < |f.direct| && BytesAt(t.disk, f.direct[i]) == Contents(s.disk, f)[i]
  {
    hide Alloc, PutAll, WriteAll;
    SourceBlock(s, f, i);
    assert Owned(s.disk, f)[i] == f.direct[i];
    AllocatedKept(s, t, i, Alloc(s.blockMap, i), cs, f.direct[i]);
  }

  lemma PointersKept(s: Fs, t: Fs, f: Inode, direct: seq<int>, indirect: int, ptrs: seq<int>, cs: seq<seq<char>>)
    requires Source(s, f) && f.size > DIRECT * BLOCK_SIZE && |direct| == DIRECT
    requires var got := |ptrs| + DIRECT + 1;
             got <= CountFalse(s.blockMap) && Alloc(s.blockMap, got) == direct + [indirect] + ptrs &&
               Storing(s, t, got, direct + ptrs, cs)
    ensures PointersAt(t.disk, f.indirect) == PointersAt(s.disk, f.indirect) &&
            |PointersAt(s.disk, f.indirect)| == f.blockCount - DIRECT
    ensures forall k :: 0 <= k < f.blockCount - DIRECT ==>
            BytesAt(t.disk, PointersAt(s.disk, f.indirect)[k]) == Contents(s.disk, f)[DIRECT + k]
  {
    hide Alloc, PutAll, WriteAll, Storing, PointersAt, BytesAt;
    LargeIffIndirect(f.size);
    var got, bs := |ptrs| + DIRECT + 1, direct + [indirect] + ptrs;
    assert bs[..DIRECT] + bs[DIRECT + 1..] == direct + ptrs;
    var o, from := Owned(s.disk, f), PointersAt(s.disk, f.indirect);
    assert o[|o| - 1] == f.indirect;
    SourceBlock(s, f, |o| - 1);
    AllocatedKept(s, t, got, direct + ptrs, cs, f.indirect);
    forall k | 0 <= k < f.blockCount - DIRECT ensures BytesAt(t.disk, from[k]) == Contents(s.disk, f)[DIRECT + k] {
      assert o[DIRECT + k] == from[k];
      SourceBlock(s, f, DIRECT + k);
      AllocatedKept(s, t, got, direct + ptrs, cs, from[k]);
    }
  }

  // ---- freeing and printing ----

  ghost predicate Freeing(s: Fs, t: Fs, bs: seq<int>) {
    t == s.(blockMap := PutAll(s.blockMap, bs, false), freeBlocks := s.freeBlocks + Freed(s.blockMap, bs))
  }

  lemma FreeingNothing(s: Fs)
    ensures Freeing(s, s, [])
  {
  }

  lemma SameDisk(s: Fs, t: Fs, bs: seq<int>)
    requires Freeing(s, t, bs)
    ensures t.disk == s.disk
  {
  }

  /** One more `free_block`. */
  lemma FreeStep(s: Fs, t: Fs, bs: seq<int>, b: int)
    requires Freeing(s, t, bs)
    ensures |t.blockMap| == |s.blockMap|
    ensures Freeing(s, t.(blockMap := Put(t.blockMap, b, false),
            freeBlocks := t.freeBlocks + if IsSet(t.blockMap, b) then 1 else 0), bs + [b])
  {
    assert (bs + [b])[..|bs|] == bs;
  }

  /** Where the blocks of a file are among all it owns. */
  lemma OwnedShape(s: Fs, f: Inode)
    requires Source(s, f)
    ensures f.blockCount > 0 && |f.direct| == (if f.blockCount > DIRECT then DIRECT else f.blockCount)
    ensures f.blockCount > DIRECT ==>
              |PointersAt(s.disk, f.indirect)| == f.blockCount - DIRECT && |Owned(s.disk, f)| == f.blockCount + 1
    ensures f.blockCount <= DIRECT ==> Owned(s.disk, f) == f.direct
  {
    LargeIffIndirect(f.size);
  }

  /** The link count says nothing about the blocks. */
  lemma SourceLinks(s: Fs, t: Fs, f: Inode, links: int)
    requires Source(s, f) && t.disk == s.disk && t.blockMap == s.blockMap
    ensures Source(t, f.(linkCount := links)) && Owned(t.disk, f.(linkCount := links)) == Owned(s.disk, f)
  {
    hide PointersAt;
    var n := f.(linkCount := links);
    assert DataBlocks(t.disk, n) == DataBlocks(s.disk, f);
    assert Owned(t.disk, n) == Owned(s.disk, f);
  }

  /** Whatever a name leads to has a bit in the inode bitmap. */
  lemma FoundBits(s: Fs, name: seq<char>)
    requires Inv(s) && Shaped(s.cur) && Search(s.cur, name) >= 0
    ensures Search(s.cur, name) < |s.inodeMap| == |s.inodes| && FindFrom(s.cur, name, 0) < s.cur.numEntry
  {
    hide OwnersRight, BlocksRight, FilesRight, DirsRight, LinksRight, RootRight, HereRight, CStr;
    var g :| InvBy(s, g);
    FoundIsLive(s, g, name);
  }

  lemma {:induction false} SameString(a: seq<char>, b: seq<char>, n: nat)
    requires n < |a| && n < |b| && a[..n] == b[..n] && a[n] == b[n] == '\0'
    ensures CStr(a) == CStr(b)
  {
    if n > 0 {
      assert a[0] == a[..n][0] == b[0];
      SameString(a[1..], b[1..], n - 1);
    }
  }

  /** A file that can be printed block by block. */
  ghost predicate Printable(disk: seq<Block>, f: Inode) {
    && f.size > 0 && f.blockCount == BlocksFor(f.size) &&
       |f.direct| == (if f.blockCount > DIRECT then DIRECT else f.blockCount)
    && (f.blockCount > DIRECT ==> |PointersAt(disk, f.indirect)| == f.blockCount - DIRECT)
    && |Contents(disk, f)| == f.blockCount &&
       (forall k :: 0 <= k < f.blockCount ==> |Contents(disk, f)[k]| == BLOCK_SIZE)
    && (forall k :: 0 <= k < |f.direct| ==> Contents(disk, f)[k] == BytesAt(disk, f.direct[k]))
    && (forall k :: DIRECT <= k < f.blockCount ==>
        Contents(disk, f)[k] == BytesAt(disk, PointersAt(disk, f.indirect)[k - DIRECT]))
  }

  /** So is what a name leads to, if it is not a directory. */
  lemma FoundIsFile(s: Fs, name: seq<char>)
    requires Inv(s) && Shaped(s.cur) && Search(s.cur, name) >= 0
    ensures var i := Search(s.cur, name);
            && i < |s.inodes| && InodeAt(s, i) == s.inodes[i]
            && (if s.inodes[i].kind == File then Printable(s.disk, s.inodes[i]) else LiveDir(s, i))
  {
    hide OwnersRight, BlocksRight, FilesRight, DirsRight, LinksRight, Owned, CStr, PointersAt, BytesAt;
    var g :| InvBy(s, g);
    FoundIsLive(s, g, name);
    assert LiveFile(s, Search(s.cur, name)) ==> FileRight(s, Search(s.cur, name));
  }

  lemma StillLeft(size: nat, i: nat)
    requires i < BlocksFor(size)
    ensures size - i * BLOCK_SIZE > 0
  {
  }

  lemma CatNothing(cs: seq<seq<char>>, left: int)
    ensures cs == [] ==> CatBlocks(cs, left) == []
  {
  }

  lemma CatStep(cs: seq<seq<char>>, i: nat, left: int, out: seq<char>)
    requires i < |cs|
    ensures out + CatBlocks(cs[i..], left) == out + CatBlock(cs[i], left) + CatBlocks(cs[i + 1..], left - BLOCK_SIZE)
  {
    assert cs[i..][1..] == cs[i + 1..];
  }

  // ---- directories and formatting ----

  /** What a directory's name leads to has a block, and that block is allocated. */
  lemma FoundIsDir(s: Fs, name: seq<char>)
    requires Inv(s) && Shaped(s.cur) && Search(s.cur, name) >= 0
    ensures var i := Search(s.cur, name);
            && i < |s.inodes| && InodeAt(s, i) == s.inodes[i]
            && (s.inodes[i].kind == Directory ==>
                  && s.inodes[i].blockCount == 1 && |s.inodes[i].direct| == 1 && s.inodes[i].direct != []
                  && 0 <= s.inodes[i].direct[0] < |s.blockMap| && Owned(s.disk, s.inodes[i]) == [s.inodes[i].direct[0]])
  {
    hide OwnersRight, BlocksRight, FilesRight, DirsRight, LinksRight, CStr, EntriesRight, DotsRight, FileRight;
    var g :| InvBy(s, g);
    FoundIsLive(s, g, name);
  }

  lemma FreedOne(m: seq<bool>, b: int)
    ensures PutAll(m, [b], false) == Put(m, b, false) && Freed(m, [b]) == if IsSet(m, b) then 1 else 0
  {
    assert [b][..0] == [];
  }

  /** The directory that cd loads is a proper one. */
  lemma EnteredIsShaped(s: Fs, name: seq<char>)
    requires Inv(s) && Shaped(s.cur) && Search(s.cur, name) >= 0
    ensures var n := InodeAt(s, Search(s.cur, name));
            n.kind == Directory && n.direct != [] ==>
              Shaped(ListingAt(Put(s.disk, s.curBlock, Listing(s.cur)), n.direct[0]))
  {
    hide InvBy, Search, ListingAt, Put;
    var g :| InvBy(s, g);
    ChangeDirKeepsInv(s, g, name);
    if ChangeDir(s, name).1 == Ok {
      HereDots(ChangeDir(s, name).0, g.(here := Search(s.cur, name)));
    }
  }

  /** Formatting finds a free inode. */
  lemma RootIsFree(z: Fs)
    requires Memory(z)
    ensures 0 <= FirstFree(ClearedInodes(z.inodeMap), 0) < |z.inodes|
  {
    assert !ClearedInodes(z.inodeMap)[0];
  }

  lemma GeneratedFits(s: Fs, c: Command)
    requires Plain(s, c)
    ensures c.CreateFile? && 0 < c.size <= MAX_SIZE ==> |c.buf| == BlocksFor(c.size) * BLOCK_SIZE
  {
  }

  lemma StoringNothing(s: Fs)
    ensures Alloc(s.blockMap, 0) == [] && Storing(s, s, 0, [], [])
  {
  }

  lemma StoredSmall(s: Fs, t: Fs, size: nat, direct: seq<int>, cs: seq<seq<char>>)
    requires |cs| == BlocksFor(size) && size <= DIRECT * BLOCK_SIZE
    requires direct == Alloc(s.blockMap, Needed(size)) && Storing(s, t, Needed(size), direct, cs)
    ensures t == Stored(s, size, cs)
    ensures InodeOn(direct, size) == Inode(File, size, BlocksFor(size), direct, 0, 1)
  {
    LargeIffIndirect(size);
  }

  /** The counts are right, and a clear bit is an inode of the table. */
  lemma CountsOf(s: Fs)
    requires Inv(s)
    ensures s.freeInodes == CountFalse(s.inodeMap) && s.freeBlocks == CountFalse(s.blockMap)
    ensures FirstFree(s.inodeMap, 0) < |s.inodes| && (s.freeInodes >= 1 ==> FirstFree(s.inodeMap, 0) >= 0)
  {
    hide OwnersRight, BlocksRight, FilesRight, DirsRight, LinksRight, RootRight, HereRight;
    FirstFreeSucceeds(s.inodeMap);
  }
}
