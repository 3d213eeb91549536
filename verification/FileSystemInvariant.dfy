/**
 The invariant of the file system: no leak, no sharing, a tree of directories, and counts that
 agree with the bitmaps.
 */
module FileSystemInvariant {
  import opened Sequences
  import opened FileSystemModel

  /**
   A witness of the invariant: which directory names an inode, how deep it is, which inode owns a
   block, and which inode is the current directory.
   */
  datatype Tree = Tree(up: map<nat, nat>, depth: map<nat, nat>, owner: map<int, nat>, here: nat)

  // ---- inodes and directories ----

  predicate Live(s: Fs, i: int) {
    0 <= i < |s.inodeMap| && s.inodeMap[i]
  }

  predicate LiveDir(s: Fs, i: int) {
    Live(s, i) && i < |s.inodes| && s.inodes[i].kind == Directory
  }

  predicate LiveFile(s: Fs, i: int) {
    Live(s, i) && i < |s.inodes| && s.inodes[i].kind == File
  }

  /** The block of a directory. */
  function DirBlock(n: Inode): int {
    if n.direct == [] then -1 else n.direct[0]
  }

  /** The contents of the directory in block `b`: those of the current directory are in memory. */
  function ListingOf(s: Fs, b: int): Dentry {
    if b == s.curBlock then s.cur else ListingAt(s.disk, b)
  }

  function Dir(s: Fs, d: nat): Dentry {
    ListingOf(s, DirBlock(InodeAt(s, d)))
  }

  /** The number of dot entries a directory starts with. */
  function Dots(d: nat): nat {
    if d == ROOT then 1 else 2
  }

  /** The inodes that entries `from` to `d.numEntry` name. */
  function Named(d: Dentry, from: nat): (r: seq<nat>)
    ensures |r| == if from <= d.numEntry <= |d.slots| then d.numEntry - from else 0
    ensures forall k :: 0 <= k < |r| ==> r[k] == d.slots[from + k].inode
  {
    if from <= d.numEntry <= |d.slots| then
      seq<nat>(d.numEntry - from, k requires 0 <= k < d.numEntry - from => d.slots[from + k].inode)
    else []
  }

  function Count(xs: seq<nat>, x: nat): nat {
    if xs == [] then 0 else (if xs[0] == x then 1 else 0) + Count(xs[1..], x)
  }

  /** How many entries of its directory name inode `i`. */
  function Links(d: Dentry, from: nat, i: nat): nat {
    Count(Named(d, from), i)
  }

  // ---- the clauses ----

  ghost predicate Sized(s: Fs) {
    && |s.inodeMap| == |s.inodes| > 0
    && |s.blockMap| == |s.disk| >= RESERVED
    && s.freeInodes == CountFalse(s.inodeMap)
    && s.freeBlocks == CountFalse(s.blockMap)
  }

  /** The owner map is exactly what the live inodes own, and no block is listed twice. */
  ghost predicate OwnersRight(s: Fs, g: Tree) {
    && (forall b {:trigger b in g.owner} :: b in g.owner ==>
        Live(s, g.owner[b]) && b in Owned(s.disk, InodeAt(s, g.owner[b])))
    && (forall i, b {:trigger b in Owned(s.disk, InodeAt(s, i))} ::
          Live(s, i) && b in Owned(s.disk, InodeAt(s, i)) ==> b in g.owner && g.owner[b] == i)
    && (forall i :: Live(s, i) ==> Distinct(Owned(s.disk, InodeAt(s, i))))
  }

  /** A block is allocated exactly when it is reserved or owned, and never both. */
  ghost predicate BlocksRight(s: Fs, g: Tree) {
    && (forall b :: b in g.owner ==> RESERVED <= b < |s.blockMap|)
    && (forall b :: 0 <= b < |s.blockMap| ==> (s.blockMap[b] <==> b < RESERVED || b in g.owner))
  }

  /** The blocks of a file are full blocks of data, and its last one carries a NUL after the end of the file. */
  ghost predicate Readable(cs: seq<seq<char>>, size: nat) {
    && |cs| == BlocksFor(size)
    && (forall i :: 0 <= i < |cs| ==> |cs[i]| == BLOCK_SIZE)
    && (forall i, j {:trigger cs[i][j]} :: 0 <= i < |cs| && 0 <= j < BLOCK_SIZE && i * BLOCK_SIZE + j < size ==>
        cs[i][j] != '\0')
    && (size % BLOCK_SIZE != 0 ==> cs[|cs| - 1][size % BLOCK_SIZE] == '\0')
  }

  ghost predicate FileRight(s: Fs, f: nat) {
    FileShaped(s.disk, InodeAt(s, f)) && Readable(Contents(s.disk, InodeAt(s, f)), InodeAt(s, f).size)
  }

  /** The inode of a directory points to one block, and that block holds a listing. */
  ghost predicate DirInodeRight(s: Fs, d: nat) {
    var n := InodeAt(s, d);
    n.blockCount == 1 && |n.direct| == 1 && 0 <= n.direct[0] < |s.disk| && s.disk[n.direct[0]].Listing?
  }

  /** The dot entries are in front. */
  ghost predicate DotsRight(l: Dentry, d: nat, parent: nat) {
    && Shaped(l) && Dots(d) <= l.numEntry
    && CStr(l.slots[0].name) == DOT && l.slots[0].inode == d
    && (d != ROOT ==> CStr(l.slots[1].name) == DOTDOT && l.slots[1].inode == parent)
  }

  /** An entry names a live inode whose directory is `d`; a directory is not named like a dot entry. */
  ghost predicate EntryRight(s: Fs, g: Tree, e: Entry, d: nat) {
    && e.inode != ROOT && Live(s, e.inode) && e.inode in g.up && g.up[e.inode] == d
    && CStr(e.name) != []
    && (LiveDir(s, e.inode) ==> CStr(e.name) != DOT && CStr(e.name) != DOTDOT)
  }

  ghost predicate EntriesRight(s: Fs, g: Tree, l: Dentry, d: nat) {
    forall k :: Dots(d) <= k < l.numEntry && k < |l.slots| ==> EntryRight(s, g, l.slots[k], d)
  }

  function ParentOf(g: Tree, d: nat): nat {
    if d in g.up then g.up[d] else ROOT
  }

  ghost predicate DirRight(s: Fs, g: Tree, d: nat) {
    && DirInodeRight(s, d)
    && DotsRight(Dir(s, d), d, ParentOf(g, d))
    && EntriesRight(s, g, Dir(s, d), d)
  }

  /**
   A live inode other than the root has a directory, one level up, and its link count is the
   number of entries that name it; a directory has one name.
   */
  ghost predicate LinkRight(s: Fs, g: Tree, i: nat) {
    && i in g.up && LiveDir(s, g.up[i])
    && i in g.depth && g.up[i] in g.depth && g.depth[i] == g.depth[g.up[i]] + 1
    && InodeAt(s, i).linkCount == Links(Dir(s, g.up[i]), Dots(g.up[i]), i) >= 1
    && (LiveDir(s, i) ==> InodeAt(s, i).linkCount == 1)
  }

  ghost predicate RootRight(s: Fs, g: Tree) {
    LiveDir(s, ROOT) && InodeAt(s, ROOT).linkCount == 0 && ROOT in g.depth && g.depth[ROOT] == 0
  }

  ghost predicate HereRight(s: Fs, g: Tree) {
    LiveDir(s, g.here) && DirBlock(InodeAt(s, g.here)) == s.curBlock
  }

  ghost predicate FilesRight(s: Fs) {
    forall f :: LiveFile(s, f) ==> FileRight(s, f)
  }

  ghost predicate DirsRight(s: Fs, g: Tree) {
    forall d :: LiveDir(s, d) ==> DirRight(s, g, d)
  }

  ghost predicate LinksRight(s: Fs, g: Tree) {
    forall i :: Live(s, i) && i != ROOT ==> LinkRight(s, g, i)
  }

  ghost predicate InvBy(s: Fs, g: Tree) {
    && Sized(s)
    && OwnersRight(s, g) && BlocksRight(s, g)
    && FilesRight(s) && DirsRight(s, g) && LinksRight(s, g)
    && RootRight(s, g) && HereRight(s, g)
  }

  ghost predicate Inv(s: Fs) {
    exists g :: InvBy(s, g)
  }
}
