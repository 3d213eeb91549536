/**
 The inode file system on values: two bitmaps with cached free counts, an inode table, blocks, and
 the in-memory copy of the current directory.  One function per command.
 */
module FileSystemModel {
  import opened Sequences

  const BLOCK_SIZE: nat := 512
  const MAX_DIR_ENTRY: nat := 21
  const MAX_FILE_NAME: nat := 20
  const DIRECT: nat := 15
  const MAX_SIZE: nat := 73216
  const RESERVED: nat := 131
  const ROOT: nat := 0

  datatype Kind = File | Directory

  /**
   `direct` holds the direct pointers in use; the slots beyond them, and `indirect` when it is
   not in use, are never read.
   */
  datatype Inode = Inode(kind: Kind, size: int, blockCount: int, direct: seq<int>, indirect: int, linkCount: int)

  /** `name` is the whole buffer of the entry, with whatever follows its first NUL. */
  datatype Entry = Entry(name: seq<char>, inode: nat)

  datatype Dentry = Dentry(numEntry: nat, slots: seq<Entry>)

  datatype Block =
    | Data(bytes: seq<char>)
    | Pointers(ptrs: seq<int>)
    | Listing(dir: Dentry)
    | SuperBlock(freeBlockCount: int, freeInodeCount: int)
    | Flags(bits: seq<bool>)
    | Table(inodes: seq<Inode>)

  datatype Fs = Fs(inodeMap: seq<bool>, blockMap: seq<bool>, freeInodes: int, freeBlocks: int,
                   inodes: seq<Inode>, disk: seq<Block>, cur: Dentry, curBlock: int)

  datatype Reply =
    | Ok
    | BadSize
    | Exists
    | DirectoryFull
    | NoInode
    | NoBlock
    | NotFound
    | NotAFile
    | NotADirectory
    | NotEmpty
    | DotName
    | NoDot

  // ---- names ----

  /** The string in a buffer: what comes before the first NUL. */
  function CStr(buf: seq<char>): (r: seq<char>)
    ensures |r| <= |buf| && r == buf[..|r|]
    ensures '\0' !in r
    ensures |r| < |buf| ==> buf[|r|] == '\0'
  {
    if buf == [] || buf[0] == '\0' then [] else [buf[0]] + CStr(buf[1..])
  }

  /** A name a user can give: what `sscanf` reads, short enough for the buffer. */
  predicate ValidName(name: seq<char>) {
    0 < |name| < MAX_FILE_NAME && '\0' !in name
  }

  /** `strncpy` of a whole name and the NUL written after it. */
  function Written(buf: seq<char>, name: seq<char>): seq<char>
    requires |name| < |buf|
  {
    name + ['\0'] + buf[|name| + 1..]
  }

  /** `strncpy(dst, src, strlen(src))`: the characters of `src` without a terminator, over what was there. */
  function Overlay(dst: seq<char>, src: seq<char>): seq<char>
    requires |src| == |dst|
  {
    CStr(src) + dst[|CStr(src)|..]
  }

  // ---- directories ----

  /** The first entry from `k` on that carries `name`, or the number of entries. */
  function FindFrom(d: Dentry, name: seq<char>, k: nat): (r: nat)
    requires k <= d.numEntry <= |d.slots|
    ensures k <= r <= d.numEntry
    ensures r < d.numEntry ==> CStr(d.slots[r].name) == name
    ensures forall j :: k <= j < r ==> CStr(d.slots[j].name) != name
    decreases d.numEntry - k
  {
    if k == d.numEntry || CStr(d.slots[k].name) == name then k else FindFrom(d, name, k + 1)
  }

  /** A directory block as the program can have written it. */
  predicate Shaped(d: Dentry) {
    |d.slots| == MAX_DIR_ENTRY && d.numEntry <= MAX_DIR_ENTRY && forall k :: 0 <= k < |d.slots| ==>
      |d.slots[k].name| == MAX_FILE_NAME
  }

  /** `search_cur_dir` */
  function Search(d: Dentry, name: seq<char>): (r: int)
    requires Shaped(d)
    ensures -1 <= r
  {
    var k := FindFrom(d, name, 0);
    if k < d.numEntry then d.slots[k].inode else -1
  }

  function AddEntry(d: Dentry, name: seq<char>, inode: nat): (r: Dentry)
    requires Shaped(d) && d.numEntry < MAX_DIR_ENTRY && |name| < MAX_FILE_NAME
    ensures Shaped(r)
  {
    Dentry(d.numEntry + 1, d.slots[d.numEntry := Entry(Written(d.slots[d.numEntry].name, name), inode)])
  }

  /** The loop that moves the entries after `k` one place down. */
  function RemoveEntry(d: Dentry, k: nat): (r: Dentry)
    requires Shaped(d) && k < d.numEntry
    ensures Shaped(r) && r.numEntry == d.numEntry - 1
    ensures forall i :: 0 <= i < k ==> r.slots[i] == d.slots[i]
    ensures forall i :: k <= i < r.numEntry ==>
              r.slots[i] == Entry(Overlay(d.slots[i].name, d.slots[i + 1].name), d.slots[i + 1].inode)
  {
    Dentry(d.numEntry - 1, Shift(d, k, d.numEntry - 1))
  }

  /** The slots when the loop that started at `k` has come to `i`. */
  function Shift(d: Dentry, k: nat, i: nat): (r: seq<Entry>)
    requires Shaped(d) && k <= i < d.numEntry
    ensures |r| == |d.slots| && forall j :: 0 <= j < |r| ==> |r[j].name| == MAX_FILE_NAME
    ensures forall j :: 0 <= j < |r| && !(k <= j < i) ==> r[j] == d.slots[j]
    ensures forall j :: k <= j < i ==>
              r[j] == Entry(Overlay(d.slots[j].name, d.slots[j + 1].name), d.slots[j + 1].inode)
  {
    if i == k then d.slots
    else
      Shift(d, k, i - 1)[i - 1 := Entry(Overlay(d.slots[i - 1].name, d.slots[i].name), d.slots[i].inode)]
  }

  // ---- bitmaps ----

  /** The first clear bit from `k` on, or -1. */
  function FirstFree(m: seq<bool>, k: nat): (r: int)
    requires k <= |m|
    ensures r == -1 || (k <= r < |m| && !m[r])
    ensures forall j :: k <= j < (if r == -1 then |m| else r) ==> m[j]
    decreases |m| - k
  {
    if k == |m| then -1 else if !m[k] then k else FirstFree(m, k + 1)
  }

  /** The blocks that `n` calls of `get_block` return; -1 once none is free. */
  function Alloc(m: seq<bool>, n: nat): (bs: seq<int>)
    ensures |bs| == n
  {
    if n == 0 then []
    else
      var before := Alloc(m, n - 1);
      before + [FirstFree(PutAll(m, before, true), 0)]
  }

  function PutAll(m: seq<bool>, bs: seq<int>, v: bool): (r: seq<bool>)
    ensures |r| == |m|
  {
    if bs == [] then m else Put(PutAll(m, bs[..|bs| - 1], v), bs[|bs| - 1], v)
  }

  // ---- the disk ----

  /** The disk after a row of `write_disk_block` calls, each of which refuses a number out of range. */
  function WriteAll(disk: seq<Block>, bs: seq<int>, cs: seq<seq<char>>): (r: seq<Block>)
    requires |bs| == |cs|
    ensures |r| == |disk|
  {
    if bs == [] then disk
    else Put(WriteAll(disk, bs[..|bs| - 1], cs[..|cs| - 1]), bs[|bs| - 1], Data(cs[|cs| - 1]))
  }

  function PointersAt(disk: seq<Block>, b: int): seq<int> {
    if 0 <= b < |disk| && disk[b].Pointers? then disk[b].ptrs else []
  }

  function BytesAt(disk: seq<Block>, b: int): seq<char> {
    if 0 <= b < |disk| && disk[b].Data? then disk[b].bytes else []
  }

  function ListingAt(disk: seq<Block>, b: int): Dentry {
    if 0 <= b < |disk| && disk[b].Listing? then disk[b].dir else Dentry(0, [])
  }

  // ---- inodes ----

  /** The data blocks of an inode, in the order of the file. */
  function DataBlocks(disk: seq<Block>, n: Inode): seq<int> {
    if n.blockCount > DIRECT then n.direct + PointersAt(disk, n.indirect) else n.direct
  }

  /** Every block of an inode. */
  function Owned(disk: seq<Block>, n: Inode): seq<int> {
    if n.blockCount > DIRECT then n.direct + PointersAt(disk, n.indirect) + [n.indirect] else n.direct
  }

  /** The contents of a file, block by block. */
  function Contents(disk: seq<Block>, n: Inode): (r: seq<seq<char>>)
    ensures |r| == |DataBlocks(disk, n)|
    ensures forall i :: 0 <= i < |r| ==> r[i] == BytesAt(disk, DataBlocks(disk, n)[i])
  {
    seq(|DataBlocks(disk, n)|, i requires 0 <= i < |DataBlocks(disk, n)| => BytesAt(disk, DataBlocks(disk, n)[i]))
  }

  /** How many blocks a file of `size` bytes has. */
  function BlocksFor(size: nat): nat {
    size / BLOCK_SIZE + if size % BLOCK_SIZE > 0 then 1 else 0
  }

  /** Blocks to be allocated, with the one for the indirect pointers. */
  function Needed(size: nat): nat {
    BlocksFor(size) + if size > DIRECT * BLOCK_SIZE then 1 else 0
  }

  /** The inode of a file: its size, its block count and its pointers agree. */
  ghost predicate FileShaped(disk: seq<Block>, n: Inode) {
    && n.kind == File && 0 < n.size <= MAX_SIZE
    && n.blockCount == BlocksFor(n.size)
    && |n.direct| == (if n.blockCount > DIRECT then DIRECT else n.blockCount)
    && |DataBlocks(disk, n)| == n.blockCount
  }

  // ---- the commands ----

  /**
   What create and copy do after their checks: an inode, the blocks in the order they are got, the
   data, and an entry.
   */
  function Install(s: Fs, name: seq<char>, size: nat, cs: seq<seq<char>>): Fs
    requires Shaped(s.cur) && s.cur.numEntry < MAX_DIR_ENTRY && |name| < MAX_FILE_NAME
    requires |cs| == BlocksFor(size) && FirstFree(s.inodeMap, 0) >= 0
  {
    var i := FirstFree(s.inodeMap, 0);
    var bs := Alloc(s.blockMap, Needed(size));
    var large := size > DIRECT * BLOCK_SIZE;
    LargeIffIndirect(size);
    var direct := if large then bs[..DIRECT] else bs;
    var ptrs := if large then bs[DIRECT + 1..] else [];
    var written := WriteAll(s.disk, direct + ptrs, cs);
    s.(inodeMap := Put(s.inodeMap, i, true), freeInodes := s.freeInodes - 1,
       blockMap := PutAll(s.blockMap, bs, true), freeBlocks := s.freeBlocks - |bs|,
       inodes := if i < |s.inodes|
                 then s.inodes[i := Inode(File, size, BlocksFor(size), direct, if large then bs[DIRECT] else 0, 1)]
                 else s.inodes,
       disk := if large then Put(written, bs[DIRECT], Pointers(ptrs)) else written,
       cur := AddEntry(s.cur, name, i))
  }

  /** Create tests the size where remove tests the block count: the two tests agree. */
  lemma LargeIffIndirect(size: nat)
    ensures size > DIRECT * BLOCK_SIZE <==> BlocksFor(size) > DIRECT
    ensures 0 < size <= MAX_SIZE ==> 0 < BlocksFor(size) <= DIRECT + 128
  {
  }

  /** The blocks of a buffer, the first `n` of them. */
  function Chop(buf: seq<char>, n: nat): (r: seq<seq<char>>)
    requires |buf| >= n * BLOCK_SIZE
    ensures |r| == n
    ensures forall i :: 0 <= i < n ==>
              i * BLOCK_SIZE + BLOCK_SIZE <= |buf| && r[i] == buf[i * BLOCK_SIZE..i * BLOCK_SIZE + BLOCK_SIZE]
  {
    if n == 0 then [] else Chop(buf, n - 1) + [buf[(n - 1) * BLOCK_SIZE..n * BLOCK_SIZE]]
  }

  /**
   The buffer that create writes from: `size` generated characters, the NUL that `rand_string`
   puts after them, and whatever memory follows up to the end of the last block.
   */
  ghost predicate Generated(buf: seq<char>, size: nat) {
    && |buf| == BlocksFor(size) * BLOCK_SIZE
    && size <= |buf|
    && (forall k :: 0 <= k < size ==> buf[k] != '\0')
    && (size < |buf| ==> buf[size] == '\0')
  }

  /** `file_create` */
  function Create(s: Fs, name: seq<char>, size: int, buf: seq<char>): (Fs, Reply)
    requires Shaped(s.cur) && ValidName(name)
    requires 0 < size <= MAX_SIZE ==> |buf| == BlocksFor(size) * BLOCK_SIZE
  {
    if size <= 0 || size > MAX_SIZE then (s, BadSize)
    else if Search(s.cur, name) >= 0 then (s, Exists)
    else if s.cur.numEntry + 1 > MAX_DIR_ENTRY then (s, DirectoryFull)
    else if s.freeInodes < 1 then (s, NoInode)
    else if Needed(size) > s.freeBlocks then (s, NoBlock)
    else if FirstFree(s.inodeMap, 0) < 0 then (s, NoInode)
    else (Install(s, name, size, Chop(buf, BlocksFor(size))), Ok)
  }

  function InodeAt(s: Fs, i: int): Inode {
    if 0 <= i < |s.inodes| then s.inodes[i] else Inode(File, 0, 0, [], 0, 0)
  }

  /** `file_copy` */
  function Copy(s: Fs, src: seq<char>, dest: seq<char>): (Fs, Reply)
    requires Shaped(s.cur) && ValidName(dest)
    requires var n := InodeAt(s, Search(s.cur, src)); n.kind == File && Search(s.cur, src) >= 0 ==>
             FileShaped(s.disk, n)
  {
    var i := Search(s.cur, src);
    var n := InodeAt(s, i);
    if i < 0 then (s, NotFound)
    else if s.cur.numEntry + 1 > MAX_DIR_ENTRY then (s, DirectoryFull)
    else if s.freeInodes < 1 then (s, NoInode)
    else if n.kind != File then (s, NotAFile)
    else if Needed(n.size) > s.freeBlocks then (s, NoBlock)
    else if FirstFree(s.inodeMap, 0) < 0 then (s, NoInode)
    else (Install(s, dest, n.size, Contents(s.disk, n)), Ok)
  }

  /** `hard_link` */
  function Link(s: Fs, src: seq<char>, dest: seq<char>): (Fs, Reply)
    requires Shaped(s.cur) && ValidName(dest)
  {
    var i := Search(s.cur, src);
    if i < 0 then (s, NotFound)
    else if s.cur.numEntry + 1 > MAX_DIR_ENTRY then (s, DirectoryFull)
    else (AddLink(s, i, dest), Ok)
  }

  function AddLink(s: Fs, i: nat, dest: seq<char>): Fs
    requires Shaped(s.cur) && s.cur.numEntry < MAX_DIR_ENTRY && |dest| < MAX_FILE_NAME
  {
    s.(inodes := SetLinks(s.inodes, i, 1), cur := AddEntry(s.cur, dest, i))
  }

  /** The inode table after `linkCount` of inode `i` has changed by `delta`. */
  function SetLinks(inodes: seq<Inode>, i: nat, delta: int): (r: seq<Inode>)
    ensures |r| == |inodes|
  {
    if i < |inodes| then inodes[i := inodes[i].(linkCount := inodes[i].linkCount + delta)] else inodes
  }

  function IsSet(m: seq<bool>, b: int): bool {
    0 <= b < |m| && m[b]
  }

  /** How many of `free_block` calls on `bs` find their bit set. */
  function Freed(m: seq<bool>, bs: seq<int>): nat {
    if bs == [] then 0
    else Freed(m, bs[..|bs| - 1]) + if IsSet(PutAll(m, bs[..|bs| - 1], false), bs[|bs| - 1]) then 1 else 0
  }

  /**
   What remove and rmdir do after their checks: one link less, everything freed with the last, and
   entry `k` shifted out.
   */
  function Unlink(s: Fs, i: nat, k: nat): Fs
    requires Shaped(s.cur) && k < s.cur.numEntry
  {
    var t := s.(inodes := SetLinks(s.inodes, i, -1), cur := RemoveEntry(s.cur, k));
    if InodeAt(t, i).linkCount > 0 then t
    else
      var bs := Owned(s.disk, InodeAt(s, i));
      t.(blockMap := PutAll(s.blockMap, bs, false), freeBlocks := s.freeBlocks + Freed(s.blockMap, bs),
         inodeMap := Put(s.inodeMap, i, false), freeInodes := s.freeInodes + if IsSet(s.inodeMap, i) then 1 else 0)
  }

  /** `file_remove` */
  function Remove(s: Fs, name: seq<char>): (Fs, Reply)
    requires Shaped(s.cur)
  {
    var i := Search(s.cur, name);
    if i < 0 then (s, NotFound)
    else if InodeAt(s, i).kind != File then (s, NotAFile)
    else (Unlink(s, i, FindFrom(s.cur, name, 0)), Ok)
  }

  const DOT: seq<char> := "."
  const DOTDOT: seq<char> := ".."

  /** The block of a new directory; `junk` is what the local variable held before. */
  function NewListing(junk: seq<Entry>, self: nat, parent: nat): Dentry
    requires Shaped(Dentry(0, junk))
  {
    Dentry(2, junk[0 := Entry(Written(junk[0].name, DOT), self)][1 := Entry(Written(junk[1].name, DOTDOT), parent)])
  }

  /** `dir_make`; it does not look at the number of free blocks, and the block it gets may be -1. */
  function MakeDir(s: Fs, name: seq<char>, junk: seq<Entry>): (Fs, Reply)
    requires Shaped(s.cur) && ValidName(name) && Shaped(Dentry(0, junk))
  {
    if name == DOT || name == DOTDOT then (s, DotName)
    else if Search(s.cur, name) >= 0 then (s, Exists)
    else if s.cur.numEntry + 1 > MAX_DIR_ENTRY then (s, DirectoryFull)
    else if s.freeInodes < 1 then (s, NoInode)
    else
      var i, b := FirstFree(s.inodeMap, 0), FirstFree(s.blockMap, 0);
      if i < 0 then (s, NoInode)
      else
        var t := s.(inodeMap := Put(s.inodeMap, i, true), freeInodes := s.freeInodes - 1,
                    blockMap := Put(s.blockMap, b, true), freeBlocks := s.freeBlocks - (if b >= 0 then 1 else 0),
                    inodes := if i < |s.inodes| then s.inodes[i := Inode(Directory, 1, 1, [b], 0, 1)] else s.inodes);
        var parent := Search(s.cur, DOT);
        if parent < 0 then (t, NoDot)
        else (t.(disk := Put(s.disk, b, Listing(NewListing(junk, i, parent))), cur := AddEntry(s.cur, name, i)), Ok)
  }

  /** `dir_remove`, which looks at the directory's block on the disk. */
  function RemoveDir(s: Fs, name: seq<char>): (Fs, Reply)
    requires Shaped(s.cur)
  {
    if name == DOT || name == DOTDOT then (s, DotName)
    else
      var i := Search(s.cur, name);
      var n := InodeAt(s, i);
      if i < 0 then (s, NotFound)
      else if n.kind != Directory then (s, NotADirectory)
      else if n.direct == [] || ListingAt(s.disk, n.direct[0]).numEntry != 2 then (s, NotEmpty)
      else (Unlink(s, i, FindFrom(s.cur, name, 0)), Ok)
  }

  /** `dir_change`: the current directory's copy is saved to its block, then the new one is loaded. */
  function ChangeDir(s: Fs, name: seq<char>): (Fs, Reply)
    requires Shaped(s.cur)
  {
    var i := Search(s.cur, name);
    var n := InodeAt(s, i);
    if i < 0 then (s, NotFound)
    else if n.kind != Directory || n.direct == [] then (s, NotADirectory)
    else
      var disk := Put(s.disk, s.curBlock, Listing(s.cur));
      (s.(disk := disk, curBlock := n.direct[0], cur := ListingAt(disk, n.direct[0])), Ok)
  }

  // ---- cat ----

  /**
   What one block contributes: cat puts a NUL one byte after the end of the file, or after the block,
   and prints a string.
   */
  function CatBlock(bytes: seq<char>, left: int): seq<char> {
    var buf := bytes + ['\0'];
    if 0 <= left && left + 1 < |buf| then CStr(buf[left + 1 := '\0']) else CStr(buf)
  }

  /** What cat prints of blocks `cs` with `left` bytes of the file still to come. */
  function CatBlocks(cs: seq<seq<char>>, left: int): seq<char> {
    if cs == [] then [] else CatBlock(cs[0], left) + CatBlocks(cs[1..], left - BLOCK_SIZE)
  }

  /** `file_cat` on a file: what it prints. */
  function Cat(s: Fs, i: int): seq<char> {
    CatBlocks(Contents(s.disk, InodeAt(s, i)), InodeAt(s, i).size)
  }
}
