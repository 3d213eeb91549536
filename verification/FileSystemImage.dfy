/** Unmounting writes superblock, bitmaps, inode table and current directory to the disk; mounting reads them back. */
module FileSystemImage {
  import opened Sequences
  import opened FileSystemModel
  import opened FileSystemInvariant
  import opened FileSystemGrowth
  import opened FileSystemRuns

  const INODES_PER_BLOCK: nat := 4
  const TABLE: nat := 3

  /** The inode table fills the reserved blocks behind the bitmaps. */
  predicate Layout(s: Fs) {
    |s.inodes| == INODES_PER_BLOCK * (RESERVED - TABLE) && |s.disk| >= RESERVED
  }

  /** What `fs_umount` writes to reserved block `b`. */
  function HeaderBlock(s: Fs, b: nat): Block
    requires Layout(s) && b < RESERVED
  {
    if b == 0 then SuperBlock(s.freeBlocks, s.freeInodes)
    else if b == 1 then Flags(s.inodeMap)
    else if b == 2 then Flags(s.blockMap)
    else Table(s.inodes[INODES_PER_BLOCK * (b - TABLE)..INODES_PER_BLOCK * (b - TABLE) + INODES_PER_BLOCK])
  }

  /** The disk once the first `k` reserved blocks have been written. */
  function HeaderTo(s: Fs, k: nat): (r: seq<Block>)
    requires Layout(s) && k <= RESERVED
    ensures |r| == |s.disk| && forall b :: 0 <= b < |r| ==> r[b] == if b < k then HeaderBlock(s, b) else s.disk[b]
  {
    seq(|s.disk|, b requires 0 <= b < |s.disk| => if b < k then HeaderBlock(s, b) else s.disk[b])
  }

  /** The current directory written to its block. */
  function Saved(s: Fs): Fs {
    s.(disk := Put(s.disk, s.curBlock, Listing(s.cur)))
  }

  /** The disk that `fs_umount` leaves. */
  function Image(s: Fs): seq<Block>
    requires Layout(s)
  {
    Put(HeaderTo(s, RESERVED), s.curBlock, Listing(s.cur))
  }

  /** The first three writes of `fs_umount`. */
  lemma HeaderStart(s: Fs)
    requires Layout(s)
    ensures s.disk[0 := SuperBlock(s.freeBlocks, s.freeInodes)][1 := Flags(s.inodeMap)][2 := Flags(s.blockMap)] ==
            HeaderTo(s, TABLE)
  {
  }

  /** One turn of its loop over the inode table. */
  lemma HeaderNext(s: Fs, i: nat)
    requires Layout(s) && i < RESERVED - TABLE
    ensures var from := INODES_PER_BLOCK * i;
            HeaderTo(s, TABLE + i)[TABLE + i := Table(s.inodes[from..from + INODES_PER_BLOCK])] ==
              HeaderTo(s, TABLE + i + 1)
  {
  }

  /** A disk that can be mounted; `fs_mount` itself looks at the superblock only. */
  ghost predicate Mountable(d: seq<Block>) {
    && |d| >= RESERVED && d[0].SuperBlock? && d[1].Flags? && d[2].Flags?
    && |d[1].bits| == INODES_PER_BLOCK * (RESERVED - TABLE) && |d[2].bits| == |d|
    && forall b :: TABLE <= b < RESERVED ==> d[b].Table? && |d[b].inodes| == INODES_PER_BLOCK
  }

  function TableOf(d: seq<Block>): (r: seq<Inode>)
    requires Mountable(d)
    ensures |r| == INODES_PER_BLOCK * (RESERVED - TABLE)
    ensures forall i :: 0 <= i < |r| ==> r[i] == d[TABLE + i / INODES_PER_BLOCK].inodes[i % INODES_PER_BLOCK]
  {
    seq(INODES_PER_BLOCK * (RESERVED - TABLE), i requires 0 <= i < INODES_PER_BLOCK * (RESERVED - TABLE) =>
      d[TABLE + i / INODES_PER_BLOCK].inodes[i % INODES_PER_BLOCK])
  }

  /** `fs_mount` of an image: everything is read from the disk, and the root becomes the current directory. */
  ghost function Mounted(d: seq<Block>): Fs
    requires Mountable(d)
  {
    var inodes := TableOf(d);
    Fs(d[1].bits, d[2].bits, d[0].freeInodeCount, d[0].freeBlockCount, inodes, d,
       ListingAt(d, DirBlock(inodes[ROOT])), DirBlock(inodes[ROOT]))
  }

  /** What unmounting wrote to the header, mounting reads back. */
  lemma ImageReadsBack(s: Fs)
    requires Layout(s) && |s.inodeMap| == |s.inodes| && |s.blockMap| == |s.disk| && s.curBlock >= RESERVED
    ensures Mountable(Image(s)) && TableOf(Image(s)) == s.inodes
    ensures Image(s)[0] == SuperBlock(s.freeBlocks, s.freeInodes)
    ensures Image(s)[1] == Flags(s.inodeMap) && Image(s)[2] == Flags(s.blockMap)
    ensures SameOutside(s.disk, Image(s), [s.curBlock] + Header())
  {
    var d := Image(s);
    assert forall b :: 0 <= b < RESERVED ==> d[b] == HeaderBlock(s, b);
    forall i | 0 <= i < |s.inodes| ensures TableOf(d)[i] == s.inodes[i] {
      var b := TABLE + i / INODES_PER_BLOCK;
      assert d[b] == HeaderBlock(s, b);
    }
    forall b | 0 <= b < |d| && b !in [s.curBlock] + Header() ensures d[b] == s.disk[b] {
      InHeader(b);
      assert s.curBlock in [s.curBlock] + Header();
    }
  }

  /** The directories on the image are those there were, each in its block. */
  lemma ImageListings(s: Fs, g: Tree, d: nat)
    requires InvBy(s, g) && Layout(s) && LiveDir(s, d)
    ensures s.curBlock >= RESERVED && Mountable(Image(s)) && ROOT < |s.inodes|
    ensures var t := Mounted(Image(s));
            && t.inodes == s.inodes && DirInodeRight(t, d) && Dir(t, d) == Dir(s, d)
            && t.disk[s.inodes[d].direct[0]] == Listing(Dir(s, d))
  {
    hide BlocksRight, FilesRight, LinksRight, EntriesRight, DotsRight, HeaderTo, Mountable, CStr;
    OwnsBeyondHeader(s, g, g.here);
    OwnsBeyondHeader(s, g, d);
    HereIsOnly(s, g, d);
    ImageReadsBack(s);
    var b := s.inodes[d].direct[0];
    InHeader(b);
    assert b != s.curBlock ==> b !in [s.curBlock] + Header();
  }

  lemma OwnsBeyondHeader(s: Fs, g: Tree, d: nat)
    requires InvBy(s, g) && LiveDir(s, d)
    ensures DirInodeRight(s, d) && DirBlock(InodeAt(s, d)) >= RESERVED && LiveDir(s, g.here)
    ensures DirBlock(InodeAt(s, g.here)) == s.curBlock
  {
    hide FilesRight, LinksRight, EntriesRight, DotsRight, Sized;
    assert DirRight(s, g, d);
    assert Owned(s.disk, InodeAt(s, d))[0] == DirBlock(InodeAt(s, d));
    assert DirBlock(InodeAt(s, d)) in Owned(s.disk, InodeAt(s, d));
  }

  /** Unmounting and mounting again gives back the same files and directories, with the root as the current one. */
  lemma {:induction false} RemountKeepsInv(s: Fs, g: Tree)
    requires InvBy(s, g) && Layout(s)
    ensures Mountable(Image(s))
    ensures var t := Mounted(Image(s));
            && InvBy(t, g.(here := ROOT)) && Saved(t) == t
            && t.inodeMap == s.inodeMap && t.blockMap == s.blockMap && t.inodes == s.inodes
            && t.freeInodes == s.freeInodes && t.freeBlocks == s.freeBlocks
            && (forall d :: LiveDir(s, d) ==> Dir(t, d) == Dir(s, d))
            && (forall f :: LiveFile(s, f) ==> Contents(t.disk, InodeAt(t, f)) == Contents(s.disk, InodeAt(s, f)))
  {
    hide OwnersRight, BlocksRight, FilesRight, DirsRight, LinksRight, EntriesRight, DotsRight, Image,
         Mountable, Contents, CStr;
    OwnsBeyondHeader(s, g, ROOT);
    OwnsBeyondHeader(s, g, g.here);
    ImageReadsBack(s);
    var t := Mounted(Image(s));
    forall d | LiveDir(s, d)
      ensures DirInodeRight(t, d) && Dir(t, d) == Dir(s, d) && t.disk[s.inodes[d].direct[0]] == Listing(Dir(s, d))
    {
      ImageListings(s, g, d);
    }
    assert Dir(t, ROOT) == Dir(s, ROOT);
    assert Entered(s, g, ROOT, t);
    EnteredKeepsInv(s, g, ROOT, t);
    forall f | LiveFile(s, f) ensures Contents(t.disk, InodeAt(t, f)) == Contents(s.disk, InodeAt(s, f)) {
      EnteredInode(s, g, ROOT, t, f);
    }
  }
}
