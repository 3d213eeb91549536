/** Create, copy and mkdir are growth: the invariant, and what the new file holds. */
module FileSystemCreation {
  import opened Sequences
  import opened FileSystemModel
  import opened FileSystemInvariant
  import opened FileSystemGrowth

  // ---- the blocks of a new file ----

  /** The data blocks among those allocated for a file of `size`: all but the one for the pointers. */
  function DataOf(bs: seq<int>, large: bool): (r: seq<int>)
    requires large ==> |bs| > DIRECT
  {
    if large then bs[..DIRECT] + bs[DIRECT + 1..] else bs
  }

  lemma DataOfFacts(bs: seq<int>, large: bool)
    requires Distinct(bs) && (large ==> |bs| > DIRECT)
    ensures var d := DataOf(bs, large);
            && Distinct(d) && |d| == (if large then |bs| - 1 else |bs|)
            && (forall b :: b in d <==> b in bs && (large ==> b != bs[DIRECT]))
  {
    var d := DataOf(bs, large);
    if large {
      assert forall k :: 0 <= k < |d| ==> d[k] == bs[if k < DIRECT then k else k + 1];
      forall b | b in bs && b != bs[DIRECT] ensures b in d {
        var k :| 0 <= k < |bs| && bs[k] == b;
        assert d[if k < DIRECT then k else k - 1] == b;
      }
    }
  }

  /** The disk after the data, and the pointers of a large file, have been written. */
  function Filled(disk: seq<Block>, bs: seq<int>, large: bool, cs: seq<seq<char>>): seq<Block>
    requires (large ==> |bs| > DIRECT) && |cs| == |DataOf(bs, large)|
  {
    var written := WriteAll(disk, DataOf(bs, large), cs);
    if large then Put(written, bs[DIRECT], Pointers(bs[DIRECT + 1..])) else written
  }

  /** A file inode on the blocks `bs`. */
  function InodeOn(bs: seq<int>, size: nat): Inode
    requires |bs| == Needed(size)
  {
    var large := size > DIRECT * BLOCK_SIZE;
    LargeIffIndirect(size);
    Inode(File, size, BlocksFor(size), if large then bs[..DIRECT] else bs, if large then bs[DIRECT] else 0, 1)
  }

  /** What the filled disk holds: the data in their blocks, the pointers in theirs, and everything else as before. */
  lemma FilledDisk(disk: seq<Block>, bs: seq<int>, large: bool, cs: seq<seq<char>>)
    requires (large ==> |bs| > DIRECT) && |cs| == |DataOf(bs, large)|
    requires Distinct(bs) && forall k :: 0 <= k < |bs| ==> 0 <= bs[k] < |disk|
    ensures var d, e := DataOf(bs, large), Filled(disk, bs, large, cs);
            && SameOutside(disk, e, bs)
            && (forall k :: 0 <= k < |d| ==> BytesAt(e, d[k]) == cs[k])
            && (large ==> PointersAt(e, bs[DIRECT]) == bs[DIRECT + 1..])
  {
    hide WriteAll, DataOf;
    DataOfFacts(bs, large);
    var d := DataOf(bs, large);
    forall k | 0 <= k < |d| ensures 0 <= d[k] < |disk| && (large ==> d[k] != bs[DIRECT]) {
      var b := d[k];
      assert b in d;
    }
    WriteAllAt(disk, d, cs);
  }

  /** The filled disk read back through the new inode gives the blocks and the data that went in. */
  lemma FilledReadsBack(disk: seq<Block>, bs: seq<int>, size: nat, cs: seq<seq<char>>)
    requires |bs| == Needed(size) && |cs| == BlocksFor(size)
    requires Distinct(bs) && forall k :: 0 <= k < |bs| ==> 0 <= bs[k] < |disk|
    ensures var large := size > DIRECT * BLOCK_SIZE;
            (large ==> |bs| > DIRECT) && |cs| == |DataOf(bs, large)|
    ensures var e, n := Filled(disk, bs, size > DIRECT * BLOCK_SIZE, cs), InodeOn(bs, size);
            && SameOutside(disk, e, bs)
            && DataBlocks(e, n) == DataOf(bs, size > DIRECT * BLOCK_SIZE)
            && Contents(e, n) == cs
            && Distinct(Owned(e, n)) && (forall b :: b in Owned(e, n) <==> b in bs)
  {
    hide Filled, BytesAt, PointersAt, Owned, SameOutside;
    var large := size > DIRECT * BLOCK_SIZE;
    LargeIffIndirect(size);
    FilledDisk(disk, bs, large, cs);
    var e, n := Filled(disk, bs, large, cs), InodeOn(bs, size);
    assert DataBlocks(e, n) == DataOf(bs, large);
    OwnedOfData(e, n, bs, large);
  }

  lemma OwnedOfData(e: seq<Block>, n: Inode, bs: seq<int>, large: bool)
    requires Distinct(bs) && (large ==> |bs| > DIRECT) && (n.blockCount > DIRECT <==> large)
    requires DataBlocks(e, n) == DataOf(bs, large) && (large ==> n.indirect == bs[DIRECT])
    ensures Distinct(Owned(e, n)) && (forall b :: b in Owned(e, n) <==> b in bs)
  {
    DataOfFacts(bs, large);
    var o, d := Owned(e, n), DataOf(bs, large);
    if large {
      assert o == d + [bs[DIRECT]];
    } else {
      assert o == d;
    }
  }

  /** Install is growth by a file that reads back as `cs`. */
  lemma InstallGrows(s: Fs, g: Tree, name: seq<char>, size: nat, cs: seq<seq<char>>)
    requires InvBy(s, g) && s.cur.numEntry < MAX_DIR_ENTRY && ValidName(name)
    requires 0 < size <= MAX_SIZE && Readable(cs, size)
    requires s.freeInodes >= 1 && Needed(size) <= s.freeBlocks
    ensures Shaped(s.cur) && FirstFree(s.inodeMap, 0) >= 0
    ensures var t, i := Install(s, name, size, cs), FirstFree(s.inodeMap, 0);
            && Grown(s, t, i, Alloc(s.blockMap, Needed(size)), name)
            && t.inodes[i].kind == File && FileRight(t, i)
            && Contents(t.disk, t.inodes[i]) == cs && t.inodes[i].size == size
  {
    hide OwnersRight, FilesRight, DirsRight, LinksRight, Owned, Contents, WriteAll, Alloc, PutAll, CStr, Readable;
    HereDots(s, g);
    FirstFreeSucceeds(s.inodeMap);
    AllocSucceeds(s.blockMap, Needed(size));
    var bs := Alloc(s.blockMap, Needed(size));
    LargeIffIndirect(size);
    BlocksOfReadable(cs, size);
    FilledReadsBack(s.disk, bs, size, cs);
    InstallDisk(s, name, size, cs);
  }

  lemma BlocksOfReadable(cs: seq<seq<char>>, size: nat)
    requires Readable(cs, size)
    ensures |cs| == BlocksFor(size)
  {
  }

  /** Install writes the disk and the inode described above. */
  lemma InstallDisk(s: Fs, name: seq<char>, size: nat, cs: seq<seq<char>>)
    requires Shaped(s.cur) && s.cur.numEntry < MAX_DIR_ENTRY && |name| < MAX_FILE_NAME
    requires |cs| == BlocksFor(size) && 0 <= FirstFree(s.inodeMap, 0) < |s.inodes|
    ensures var large, bs := size > DIRECT * BLOCK_SIZE, Alloc(s.blockMap, Needed(size));
            var t, i := Install(s, name, size, cs), FirstFree(s.inodeMap, 0);
            && (large ==> |bs| > DIRECT) && |cs| == |DataOf(bs, large)|
            && t.disk == Filled(s.disk, bs, large, cs)
            && t.inodes == s.inodes[i := InodeOn(bs, size)]
  {
    LargeIffIndirect(size);
    var bs := Alloc(s.blockMap, Needed(size));
    assert bs + [] == bs;
  }

  /** The blocks cut from a generated buffer read back as a file of that size. */
  lemma GeneratedIsReadable(buf: seq<char>, size: nat)
    requires 0 < size <= MAX_SIZE && Generated(buf, size)
    ensures Readable(Chop(buf, BlocksFor(size)), size)
  {
    var cs := Chop(buf, BlocksFor(size));
    forall i, j | 0 <= i < |cs| && 0 <= j < BLOCK_SIZE ensures cs[i][j] == buf[i * BLOCK_SIZE + j] {}
  }

  /** Create keeps the invariant; when it succeeds the new file holds the generated buffer. */
  lemma {:induction false} CreateKeepsInv(s: Fs, g: Tree, name: seq<char>, size: int, buf: seq<char>)
    requires InvBy(s, g) && ValidName(name) && (0 < size <= MAX_SIZE ==> Generated(buf, size))
    ensures Shaped(s.cur)
    ensures var (t, r) := Create(s, name, size, buf);
            if r != Ok then t == s
            else
              var i := FirstFree(s.inodeMap, 0);
              && 0 < size <= MAX_SIZE && !Live(s, i)
              && Grown(s, t, i, Alloc(s.blockMap, Needed(size)), name)
              && g.here in g.depth && InvBy(t, Grow(g, i, Alloc(s.blockMap, Needed(size))))
              && LiveFile(t, i) && t.inodes[i].size == size
              && Contents(t.disk, t.inodes[i]) == Chop(buf, BlocksFor(size))
  {
    hide InvBy, Grown, FileRight, Install, Readable, Contents, Alloc;
    HereDots(s, g);
    var (t, r) := Create(s, name, size, buf);
    if r == Ok {
      GeneratedIsReadable(buf, size);
      InstallGrows(s, g, name, size, Chop(buf, BlocksFor(size)));
      GrownKeepsInv(s, g, t, FirstFree(s.inodeMap, 0), Alloc(s.blockMap, Needed(size)), name);
      GrownIsLive(s, t, FirstFree(s.inodeMap, 0), Alloc(s.blockMap, Needed(size)), name);
    }
  }

  lemma GrownIsLive(s: Fs, t: Fs, i: nat, bs: seq<int>, name: seq<char>)
    requires Grown(s, t, i, bs, name)
    ensures !Live(s, i) && Live(t, i) && i < |t.inodes|
  {
  }

  /** What a name in the current directory leads to is live. */
  lemma FoundIsLive(s: Fs, g: Tree, name: seq<char>)
    requires InvBy(s, g)
    ensures Shaped(s.cur)
    ensures var i := Search(s.cur, name);
            i >= 0 ==> Live(s, i) && (LiveFile(s, i) ==> FileRight(s, i)) && (LiveDir(s, i) ==> DirRight(s, g, i))
  {
    hide OwnersRight, BlocksRight, Owned, CStr, FileRight;
    HereDots(s, g);
    var k := FindFrom(s.cur, name, 0);
    if k < s.cur.numEntry {
      if k >= Dots(g.here) {
        assert EntryRight(s, g, s.cur.slots[k], g.here);
      } else if k == 1 {
        assert LinkRight(s, g, g.here);
      }
    }
  }

  /** Copy keeps the invariant; when it succeeds the new file has blocks of its own and the contents of the source. */
  lemma {:induction false} CopyKeepsInv(s: Fs, g: Tree, src: seq<char>, dest: seq<char>)
    requires InvBy(s, g) && ValidName(dest)
    ensures Shaped(s.cur)
    ensures var j := Search(s.cur, src);
            && (InodeAt(s, j).kind == File && j >= 0 ==> FileShaped(s.disk, InodeAt(s, j)))
            && (var (t, r) := Copy(s, src, dest);
                if r != Ok then t == s
                else
                  var i, n := FirstFree(s.inodeMap, 0), InodeAt(s, j);
                  && LiveFile(s, j) && n.size > 0 && !Live(s, i)
                  && Grown(s, t, i, Alloc(s.blockMap, Needed(n.size)), dest)
                  && g.here in g.depth && InvBy(t, Grow(g, i, Alloc(s.blockMap, Needed(n.size))))
                  && LiveFile(t, i) && t.inodes[i].size == n.size
                  && Contents(t.disk, t.inodes[i]) == Contents(s.disk, n))
  {
    hide InvBy, Grown, DirRight, Install, Readable, Contents, Alloc;
    HereDots(s, g);
    FoundIsLive(s, g, src);
    var j := Search(s.cur, src);
    InodesSized(s, g);
    var (t, r) := Copy(s, src, dest);
    if r == Ok {
      var n := InodeAt(s, j);
      InstallGrows(s, g, dest, n.size, Contents(s.disk, n));
      GrownKeepsInv(s, g, t, FirstFree(s.inodeMap, 0), Alloc(s.blockMap, Needed(n.size)), dest);
      GrownIsLive(s, t, FirstFree(s.inodeMap, 0), Alloc(s.blockMap, Needed(n.size)), dest);
    }
  }

  lemma InodesSized(s: Fs, g: Tree)
    requires InvBy(s, g)
    ensures |s.inodeMap| == |s.inodes|
  {
  }

  // ---- mkdir ----

  /** The block of a new directory holds its dot entries. */
  lemma NewDirIsRight(t: Fs, i: nat, b: int, junk: seq<Entry>, parent: nat)
    requires Shaped(Dentry(0, junk)) && 0 <= b < |t.disk| && b != t.curBlock && ROOT != i < |t.inodes|
    requires t.inodes[i].blockCount == 1 && t.inodes[i].direct == [b] &&
             t.disk[b] == Listing(NewListing(junk, i, parent))
    ensures NewDirRight(t, i, parent)
  {
    hide CStr;
    CStrWritten(junk[0].name, DOT);
    CStrWritten(junk[1].name, DOTDOT);
  }

  /** With a free block, mkdir is growth by an empty directory under the current one. */
  lemma MakeDirGrows(s: Fs, g: Tree, name: seq<char>, junk: seq<Entry>)
    requires InvBy(s, g) && ValidName(name) && Shaped(Dentry(0, junk)) && s.freeBlocks >= 1
    ensures Shaped(s.cur)
    ensures var (t, r) := MakeDir(s, name, junk);
            var i, b := FirstFree(s.inodeMap, 0), FirstFree(s.blockMap, 0);
            if r != Ok then t == s
            else i >= 0 && Grown(s, t, i, [b], name) && t.inodes[i].kind == Directory && NewDirRight(t, i, g.here)
  {
    hide OwnersRight, FilesRight, DirsRight, LinksRight, CStr, EntriesRight, ValidName, NewDirRight,
         NewListing, AddEntry;
    HereDots(s, g);
    FirstFreeSucceeds(s.inodeMap);
    FirstFreeSucceeds(s.blockMap);
    var (t, r) := MakeDir(s, name, junk);
    assert FindFrom(s.cur, DOT, 0) == 0;
    if r == Ok {
      var i, b := FirstFree(s.inodeMap, 0), FirstFree(s.blockMap, 0);
      assert PutAll(s.blockMap, [b], true) == s.blockMap[b := true] by {
        assert [b][..0] == [];
      }
      NotCurrent(s, g, b);
      NewDirIsRight(t, i, b, junk, g.here);
    }
  }

  lemma NotCurrent(s: Fs, g: Tree, b: int)
    requires InvBy(s, g) && 0 <= b < |s.blockMap| && !s.blockMap[b]
    ensures b != s.curBlock
  {
    hide BlocksRight, FilesRight, LinksRight, CStr;
    HereIsOnly(s, g, g.here);
    FreeIsUnowned(s, g, [b]);
    assert Owned(s.disk, InodeAt(s, g.here))[0] == s.curBlock;
    assert s.curBlock in Owned(s.disk, InodeAt(s, g.here));
    assert b in [b];
  }
}
