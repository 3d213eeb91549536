/**
 The file system as the program runs it: global arrays updated in place.  Every method is proved
 against the command on values that it implements.
 */
module FileSystemMachine {
  import opened Sequences
  import opened Bitmaps
  import opened FileSystemModel
  import opened FileSystemInvariant
  import opened FileSystemCreation
  import opened FileSystemRuns
  import opened FileSystemFormat
  import opened FileSystemTree
  import opened FileSystemImage
  import opened FileSystemSteps
  import opened FileSystemLimits

  /** The globals of `fs.c` and the blocks of `disk.c`; `fs` is the value they hold. */
  class Volume {
    const inodeMap: Bitmap
    const blockMap: Bitmap
    const inode: array<Inode>
    const disk: array<Block>
    var freeInodeCount: int
    var freeBlockCount: int
    const dentry: array<Entry>
    var numEntry: nat
    var curDirBlock: int
    ghost var fs: Fs

    ghost predicate Valid()
      reads this, inodeMap.bytes, blockMap.bytes, inode, disk, dentry
    {
      && ArraysApart() && MapsMatch()
      && inode[..] == fs.inodes && disk[..] == fs.disk
      && freeInodeCount == fs.freeInodes && freeBlockCount == fs.freeBlocks
      && dentry[..] == fs.cur.slots && numEntry == fs.cur.numEntry && curDirBlock == fs.curBlock
      && Shaped(fs.cur)
    }

    ghost predicate ArraysApart() {
      var maps: set<object> := {inodeMap.bytes, blockMap.bytes};
      inodeMap.bytes != blockMap.bytes && inode as object !in maps && disk as object !in maps &&
        dentry as object !in maps
    }

    ghost function Arrays(): set<object> {
      var maps: set<object> := {inodeMap.bytes, blockMap.bytes};
      maps + {inode} + {disk} + {dentry}
    }

    ghost predicate MapsMatch()
      reads this, inodeMap.bytes, blockMap.bytes
    {
      inodeMap.View() == fs.inodeMap && blockMap.View() == fs.blockMap
    }

    /** The globals before mounting, all zero: bitmaps of `ni` and `nb` bytes and what they count. */
    constructor (ni: nat, nb: nat)
      requires ni >= 1 && nb >= RESERVED
      ensures Valid() && Memory(fs) && Blank(fs) && |fs.inodes| == 8 * ni && |fs.disk| == 8 * nb
      ensures fresh(inodeMap.bytes) && fresh(blockMap.bytes) && fresh(inode) && fresh(disk) && fresh(dentry)
    {
      inodeMap := new Bitmap(ni);
      blockMap := new Bitmap(nb);
      inode := new Inode[8 * ni](_ => Inode(File, 0, 0, [], 0, 0));
      disk := new Block[8 * nb](_ => Data(seq(BLOCK_SIZE, _ => '\0')));
      dentry := new Entry[MAX_DIR_ENTRY](_ => Entry(seq(MAX_FILE_NAME, _ => '\0'), 0));
      numEntry, curDirBlock, freeInodeCount, freeBlockCount := 0, 0, 0, 0;
      new;
      fs := Fs(inodeMap.View(), blockMap.View(), 0, 0, inode[..], disk[..], Dentry(0, dentry[..]), 0);
    }

    // ---- fs_util.c ----

    /** `get_inode` */
    method GetInode() returns (i: int)
      requires Valid()
      modifies this`fs, this`freeInodeCount, inodeMap.bytes
      ensures Valid() && i == FirstFree(old(fs).inodeMap, 0)
      ensures fs == old(fs).(inodeMap := Put(old(fs).inodeMap, i, true),
              freeInodes := old(fs).freeInodes - if i >= 0 then 1 else 0)
    {
      hide BitOf, Bits, Shaped;
      var k := 0;
      while k < 8 * inodeMap.bytes.Length
        invariant 0 <= k <= |fs.inodeMap| == 8 * inodeMap.bytes.Length
        invariant FirstFree(fs.inodeMap, 0) == FirstFree(fs.inodeMap, k)
      {
        if !inodeMap.GetBit(k) {
          inodeMap.SetBit(k, 1);
          freeInodeCount := freeInodeCount - 1;
          fs := fs.(inodeMap := fs.inodeMap[k := true], freeInodes := fs.freeInodes - 1);
          return k;
        }
        k := k + 1;
      }
      return -1;
    }

    /** `free_inode` */
    method FreeInode(i: nat)
      requires Valid() && i < |fs.inodeMap|
      modifies this`fs, this`freeInodeCount, inodeMap.bytes
      ensures Valid()
      ensures fs == old(fs).(inodeMap := Put(old(fs).inodeMap, i, false),
              freeInodes := old(fs).freeInodes + if IsSet(old(fs).inodeMap, i) then 1 else 0)
    {
      hide BitOf, Bits, Bitmap.View, Bitmap.GetBit, Shaped;
      InRange();
      if inodeMap.GetBit(i) {
        inodeMap.SetBit(i, 0);
        freeInodeCount := freeInodeCount + 1;
        fs := fs.(inodeMap := fs.inodeMap[i := false], freeInodes := fs.freeInodes + 1);
      }
    }

    /** `get_block` */
    method GetBlock() returns (b: int)
      requires Valid()
      modifies this`fs, this`freeBlockCount, blockMap.bytes
      ensures Valid() && b == FirstFree(old(fs).blockMap, 0)
      ensures fs == old(fs).(blockMap := Put(old(fs).blockMap, b, true),
              freeBlocks := old(fs).freeBlocks - if b >= 0 then 1 else 0)
    {
      hide BitOf, Bits, Shaped;
      var k := 0;
      while k < 8 * blockMap.bytes.Length
        invariant 0 <= k <= |fs.blockMap| == 8 * blockMap.bytes.Length
        invariant FirstFree(fs.blockMap, 0) == FirstFree(fs.blockMap, k)
      {
        if !blockMap.GetBit(k) {
          blockMap.SetBit(k, 1);
          freeBlockCount := freeBlockCount - 1;
          fs := fs.(blockMap := fs.blockMap[k := true], freeBlocks := fs.freeBlocks - 1);
          return k;
        }
        k := k + 1;
      }
      return -1;
    }

    /** `free_block` */
    method FreeBlock(b: nat)
      requires Valid() && b < |fs.blockMap|
      modifies this`fs, this`freeBlockCount, blockMap.bytes
      ensures Valid()
      ensures fs == old(fs).(blockMap := Put(old(fs).blockMap, b, false),
              freeBlocks := old(fs).freeBlocks + if IsSet(old(fs).blockMap, b) then 1 else 0)
    {
      hide BitOf, Bits, Bitmap.View, Bitmap.GetBit, Shaped;
      InRange();
      if blockMap.GetBit(b) {
        blockMap.SetBit(b, 0);
        freeBlockCount := freeBlockCount + 1;
        fs := fs.(blockMap := fs.blockMap[b := false], freeBlocks := fs.freeBlocks + 1);
      }
    }

    lemma InRange()
      requires Valid()
      ensures |fs.inodeMap| == 8 * inodeMap.bytes.Length && |fs.blockMap| == 8 * blockMap.bytes.Length
    {
    }

    // ---- disk.c and the inode table ----

    /** `write_disk_block` */
    method WriteDiskBlock(b: int, x: Block)
      requires Valid()
      modifies this`fs, disk
      ensures Valid() && fs == old(fs).(disk := Put(old(fs).disk, b, x))
    {
      hide Bits, Shaped;
      if b < 0 || b >= disk.Length {
        return;
      }
      disk[b] := x;
      fs := fs.(disk := fs.disk[b := x]);
    }

    /** `read_disk_block` into a buffer of bytes. */
    method ReadBytes(b: int) returns (bytes: seq<char>)
      requires Valid()
      ensures bytes == BytesAt(fs.disk, b)
    {
      bytes := BytesAt(disk[..], b);
    }

    /** `read_disk_block` into a buffer of block numbers. */
    method ReadPointers(b: int) returns (ptrs: seq<int>)
      requires Valid()
      ensures ptrs == PointersAt(fs.disk, b)
    {
      ptrs := PointersAt(disk[..], b);
    }

    /** `read_disk_block` into a directory. */
    method ReadListing(b: int) returns (d: Dentry)
      requires Valid()
      ensures d == ListingAt(fs.disk, b)
    {
      d := ListingAt(disk[..], b);
    }

    /** `write_inode` */
    method WriteInode(i: nat, n: Inode)
      requires Valid() && i < |fs.inodes|
      modifies this`fs, inode
      ensures Valid() && fs == old(fs).(inodes := old(fs).inodes[i := n])
    {
      hide Bits, Shaped;
      inode[i] := n;
      fs := fs.(inodes := fs.inodes[i := n]);
    }

    // ---- the current directory ----

    /** `search_cur_dir` */
    method SearchCurDir(name: seq<char>) returns (r: int)
      requires Valid()
      ensures r == Search(fs.cur, name)
    {
      hide Bits, CStr;
      for i := 0 to numEntry
        invariant FindFrom(fs.cur, name, 0) == FindFrom(fs.cur, name, i)
      {
        assert dentry[i] == fs.cur.slots[i];
        if name == CStr(dentry[i].name) {
          return dentry[i].inode;
        }
      }
      return -1;
    }

    /** The new entry at the end of the current directory, as create, copy, ln and mkdir all write it. */
    method AddToCurDir(name: seq<char>, i: nat)
      requires Valid() && fs.cur.numEntry < MAX_DIR_ENTRY && |name| < MAX_FILE_NAME
      modifies this`fs, this`numEntry, dentry
      ensures Valid() && fs == old(fs).(cur := AddEntry(old(fs).cur, name, i))
    {
      hide Bits, Written;
      assert dentry[numEntry] == fs.cur.slots[numEntry];
      dentry[numEntry] := Entry(Written(dentry[numEntry].name, name), i);
      numEntry := numEntry + 1;
      fs := fs.(cur := AddEntry(fs.cur, name, i));
    }

    /** The loop of rm and rmdir that looks for the entry again. */
    method IndexOf(name: seq<char>) returns (i: nat)
      requires Valid() && FindFrom(fs.cur, name, 0) < fs.cur.numEntry
      ensures i == FindFrom(fs.cur, name, 0)
    {
      hide Bits, CStr;
      i := 0;
      while i < numEntry
        invariant i <= FindFrom(fs.cur, name, 0) == FindFrom(fs.cur, name, i)
      {
        assert dentry[i] == fs.cur.slots[i];
        if name == CStr(dentry[i].name) {
          break;
        }
        i := i + 1;
      }
    }

    /** The loop that moves the entries after `k` down, in place. */
    method ShiftOut(k: nat)
      requires Valid() && k < fs.cur.numEntry
      modifies this`fs, this`numEntry, dentry
      ensures Valid() && fs == old(fs).(cur := RemoveEntry(old(fs).cur, k))
    {
      hide Bits, CStr, Overlay;
      ghost var d := fs.cur;
      var i := k;
      assert dentry[..] == Shift(d, k, k);
      while i < numEntry - 1
        modifies dentry
        invariant k <= i < numEntry == d.numEntry
        invariant dentry[..] == Shift(d, k, i)
      {
        assert dentry[i] == d.slots[i] && dentry[i + 1] == d.slots[i + 1];
        dentry[i] := Entry(Overlay(dentry[i].name, dentry[i + 1].name), dentry[i + 1].inode);
        i := i + 1;
      }
      numEntry := numEntry - 1;
      fs := fs.(cur := RemoveEntry(d, k));
    }

    // ---- create ----

    /** `get_block` and `write_disk_block` for one block of data. */
    method StoreBlock(c: seq<char>, ghost s: Fs, ghost got: nat, ghost data: seq<int>, ghost cs: seq<seq<char>>)
      returns (b: int)
      requires Valid() && Storing(s, fs, got, data, cs) && got < CountFalse(s.blockMap)
      modifies this`fs, this`freeBlockCount, blockMap.bytes, disk
      ensures Valid() && b >= 0 && Alloc(s.blockMap, got + 1) == Alloc(s.blockMap, got) + [b]
      ensures Storing(s, fs, got + 1, data + [b], cs + [c])
    {
      hide Valid, Alloc, PutAll, WriteAll, FirstFree, Put;
      AllocStep(s.blockMap, got);
      b := GetBlock();
      if b == -1 {
        assert false;
      }
      WriteStep(s.disk, data, cs, b, c);
      WriteDiskBlock(b, Data(c));
    }

    /** The loops of create: blocks are got and filled from `buf`, the sixteenth one with the pointers. */
    method FillFromBuffer(size: nat, numBlock: nat, buf: seq<char>) returns (n: Inode)
      requires Valid() && 0 < size <= MAX_SIZE && numBlock == BlocksFor(size) && |buf| == numBlock * BLOCK_SIZE
      requires Needed(size) <= CountFalse(fs.blockMap)
      modifies this`fs, this`freeBlockCount, blockMap.bytes, disk
      ensures Valid() && fs == Stored(old(fs), size, Chop(buf, numBlock))
      ensures n == InodeOn(Alloc(old(fs).blockMap, Needed(size)), size)
    {
      hide Valid, Alloc, PutAll, WriteAll, FirstFree, Put, Stored, InodeOn, Storing;
      ghost var s, cs := fs, Chop(buf, numBlock);
      LargeIffIndirect(size);
      StoringNothing(s);
      var direct: seq<int>, i := [], 0;
      while i < DIRECT && i < numBlock
        invariant 0 <= i <= numBlock && i <= DIRECT && Valid()
        invariant |direct| == i && direct == Alloc(s.blockMap, i) && Storing(s, fs, i, direct, cs[..i])
      {
        var block := StoreBlock(buf[i * BLOCK_SIZE..i * BLOCK_SIZE + BLOCK_SIZE], s, i, direct, cs[..i]);
        assert cs[..i] + [cs[i]] == cs[..i + 1];
        direct := direct + [block];
        i := i + 1;
      }
      if size > DIRECT * BLOCK_SIZE {
        var indirect := GetPointerBlock(s, DIRECT, direct, cs[..DIRECT]);
        var ptrs: seq<int> := [];
        assert direct + ptrs == direct && direct + [indirect] + ptrs == direct + [indirect];
        while i < numBlock
          invariant DIRECT <= i <= numBlock && |ptrs| == i - DIRECT && Valid()
          invariant Alloc(s.blockMap, i + 1) == direct + [indirect] + ptrs &&
                    Storing(s, fs, i + 1, direct + ptrs, cs[..i])
        {
          var block := StoreBlock(buf[i * BLOCK_SIZE..i * BLOCK_SIZE + BLOCK_SIZE], s, i + 1, direct + ptrs, cs[..i]);
          assert cs[..i] + [cs[i]] == cs[..i + 1];
          assert direct + ptrs + [block] == direct + (ptrs + [block]) &&
                 direct + [indirect] + ptrs + [block] == direct + [indirect] + (ptrs + [block]);
          ptrs := ptrs + [block];
          i := i + 1;
        }
        assert cs[..i] == cs;
        StoredWhole(s, fs, size, direct, indirect, ptrs, cs);
        WriteDiskBlock(indirect, Pointers(ptrs));
        n := Inode(File, size, numBlock, direct, indirect, 1);
      } else {
        assert cs[..i] == cs;
        StoredSmall(s, fs, size, direct, cs);
        n := Inode(File, size, numBlock, direct, 0, 1);
      }
    }

    /** The block for the indirect pointers. */
    method GetPointerBlock(ghost s: Fs, ghost got: nat, ghost data: seq<int>, ghost cs: seq<seq<char>>) returns (b: int)
      requires Valid() && Storing(s, fs, got, data, cs) && got < CountFalse(s.blockMap)
      modifies this`fs, this`freeBlockCount, blockMap.bytes
      ensures Valid() && b >= 0 && Alloc(s.blockMap, got + 1) == Alloc(s.blockMap, got) + [b]
      ensures Storing(s, fs, got + 1, data, cs)
    {
      hide Valid, Alloc, PutAll, WriteAll, FirstFree, Put;
      AllocStep(s.blockMap, got);
      b := GetBlock();
      if b == -1 {
        assert false;
      }
    }

    /** `file_create`; `buf` is what `rand_string` generated. */
    method FileCreate(name: seq<char>, size: int, buf: seq<char>) returns (r: Reply)
      requires Valid() && Inv(fs) && ValidName(name)
      requires 0 < size <= MAX_SIZE ==> |buf| == BlocksFor(size) * BLOCK_SIZE
      modifies this`fs, this`freeInodeCount, this`freeBlockCount, this`numEntry
      modifies inodeMap.bytes, blockMap.bytes, inode, disk, dentry
      ensures Valid() && (fs, r) == Create(old(fs), name, size, buf)
    {
      hide Valid, Inv, Alloc, PutAll, FirstFree, Put, Stored, InodeOn, Install, Search, AddEntry;
      Known();
      CountsOf(fs);
      if size <= 0 || size > MAX_SIZE {
        return BadSize;
      }
      var inodeNum := SearchCurDir(name);
      if inodeNum >= 0 {
        return Exists;
      }
      if numEntry + 1 > MAX_DIR_ENTRY {
        return DirectoryFull;
      }
      if freeInodeCount < 1 {
        return NoInode;
      }
      var numBlock := size / BLOCK_SIZE;
      if size % BLOCK_SIZE > 0 {
        numBlock := numBlock + 1;
      }
      if size > DIRECT * BLOCK_SIZE {
        if numBlock + 1 > freeBlockCount {
          return NoBlock;
        }
      } else {
        if numBlock > freeBlockCount {
          return NoBlock;
        }
      }
      InstallNew(name, size, numBlock, buf);
      r := Ok;
    }

    /** Create once its checks have passed: an inode, an entry, and the blocks. */
    method InstallNew(name: seq<char>, size: nat, numBlock: nat, buf: seq<char>)
      requires Valid() && 0 < size <= MAX_SIZE && numBlock == BlocksFor(size) && |buf| == numBlock * BLOCK_SIZE
      requires |name| < MAX_FILE_NAME && fs.cur.numEntry < MAX_DIR_ENTRY
      requires 0 <= FirstFree(fs.inodeMap, 0) < |fs.inodes| && Needed(size) <= CountFalse(fs.blockMap)
      modifies this`fs, this`freeInodeCount, this`freeBlockCount, this`numEntry
      modifies inodeMap.bytes, blockMap.bytes, inode, disk, dentry
      ensures Valid() && fs == Install(old(fs), name, size, Chop(buf, numBlock))
    {
      hide Valid, Alloc, PutAll, FirstFree, Put, Stored, InodeOn, Install, AddEntry;
      Known();
      InstallIsStored(fs, name, size, Chop(buf, numBlock));
      var inodeNum := GetInode();
      if inodeNum < 0 {
        assert false;
      }
      AddToCurDir(name, inodeNum);
      var newInode := FillFromBuffer(size, numBlock, buf);
      WriteInode(inodeNum, newInode);
    }

    // ---- copy ----

    /** The loops of copy: as those of create, but each block is read from the source first. */
    method FillFromFile(f: Inode) returns (n: Inode)
      requires Valid() && Source(fs, f) && Needed(f.size) <= CountFalse(fs.blockMap)
      modifies this`fs, this`freeBlockCount, blockMap.bytes, disk
      ensures Valid() && fs == Stored(old(fs), f.size, Contents(old(fs).disk, f))
      ensures n == InodeOn(Alloc(old(fs).blockMap, Needed(f.size)), f.size)
    {
      hide Valid, Alloc, PutAll, WriteAll, FirstFree, Put, Stored, InodeOn, Storing, Owned, PointersAt,
           BytesAt, DataOf, Source, FileShaped, Contents, DataBlocks;
      ghost var s, cs := fs, Contents(fs.disk, f);
      SourceFacts(fs, f);
      LargeIffIndirect(f.size);
      StoringNothing(s);
      var direct: seq<int>, i := [], 0;
      while i < DIRECT && i < f.blockCount
        invariant 0 <= i <= f.blockCount && i <= DIRECT && Valid()
        invariant |direct| == i && direct == Alloc(s.blockMap, i) && Storing(s, fs, i, direct, cs[..i])
      {
        DirectKept(s, fs, f, i, cs[..i]);
        var buf := ReadBytes(f.direct[i]);
        var block := StoreBlock(buf, s, i, direct, cs[..i]);
        assert cs[..i] + [cs[i]] == cs[..i + 1];
        direct := direct + [block];
        i := i + 1;
      }
      if f.size > DIRECT * BLOCK_SIZE {
        var indirect := GetPointerBlock(s, DIRECT, direct, cs[..DIRECT]);
        var ptrs: seq<int> := [];
        assert direct + ptrs == direct && direct + [indirect] + ptrs == direct + [indirect];
        PointersKept(s, fs, f, direct, indirect, ptrs, cs[..i]);
        var from := ReadPointers(f.indirect);
        while i < f.blockCount
          invariant DIRECT <= i <= f.blockCount && |ptrs| == i - DIRECT && Valid()
          invariant Alloc(s.blockMap, i + 1) == direct + [indirect] + ptrs &&
                    Storing(s, fs, i + 1, direct + ptrs, cs[..i])
        {
          PointersKept(s, fs, f, direct, indirect, ptrs, cs[..i]);
          var buf := ReadBytes(from[i - DIRECT]);
          var block := StoreBlock(buf, s, i + 1, direct + ptrs, cs[..i]);
          assert cs[..i] + [cs[i]] == cs[..i + 1];
          assert direct + ptrs + [block] == direct + (ptrs + [block]) &&
                 direct + [indirect] + ptrs + [block] == direct + [indirect] + (ptrs + [block]);
          ptrs := ptrs + [block];
          i := i + 1;
        }
        assert cs[..i] == cs;
        StoredWhole(s, fs, f.size, direct, indirect, ptrs, cs);
        WriteDiskBlock(indirect, Pointers(ptrs));
        n := Inode(File, f.size, f.blockCount, direct, indirect, 1);
      } else {
        assert cs[..i] == cs;
        StoredSmall(s, fs, f.size, direct, cs);
        n := Inode(File, f.size, f.blockCount, direct, 0, 1);
      }
    }

    /** `file_copy` */
    method FileCopy(src: seq<char>, dest: seq<char>) returns (r: Reply)
      requires Valid() && Inv(fs) && ValidName(dest)
      modifies this`fs, this`freeInodeCount, this`freeBlockCount, this`numEntry
      modifies inodeMap.bytes, blockMap.bytes, inode, disk, dentry
      ensures CopyReady(old(fs), CopyFile(src, dest))
      ensures Valid() && (fs, r) == Copy(old(fs), src, dest)
    {
      hide Valid, Inv, Alloc, PutAll, FirstFree, Put, Stored, InodeOn, Install, Search, AddEntry, Source,
           Contents, FileShaped;
      Known();
      CountsOf(fs);
      CopyIsReady(fs, CopyFile(src, dest));
      var ret := SearchCurDir(src);
      if ret == -1 {
        return NotFound;
      }
      if numEntry + 1 > MAX_DIR_ENTRY {
        return DirectoryFull;
      }
      if freeInodeCount < 1 {
        return NoInode;
      }
      FoundIsSource(fs, src);
      var f := inode[ret];
      if f.kind != File {
        return NotAFile;
      }
      SourceFacts(fs, f);
      if f.size > DIRECT * BLOCK_SIZE {
        if f.blockCount + 1 > freeBlockCount {
          return NoBlock;
        }
      } else {
        if f.blockCount > freeBlockCount {
          return NoBlock;
        }
      }
      InstallCopy(dest, f);
      r := Ok;
    }

    /** Copy once its checks have passed: an inode, an entry, and the blocks. */
    method InstallCopy(dest: seq<char>, f: Inode)
      requires Valid() && Source(fs, f) && |dest| < MAX_FILE_NAME && fs.cur.numEntry < MAX_DIR_ENTRY
      requires 0 <= FirstFree(fs.inodeMap, 0) < |fs.inodes| && Needed(f.size) <= CountFalse(fs.blockMap)
      modifies this`fs, this`freeInodeCount, this`freeBlockCount, this`numEntry
      modifies inodeMap.bytes, blockMap.bytes, inode, disk, dentry
      ensures Valid() && fs == Install(old(fs), dest, f.size, Contents(old(fs).disk, f))
    {
      hide Valid, Alloc, PutAll, FirstFree, Put, Stored, InodeOn, Install, AddEntry, Source, Contents, FileShaped;
      Known();
      SourceFacts(fs, f);
      InstallIsStored(fs, dest, f.size, Contents(fs.disk, f));
      var inodeNum := GetInode();
      if inodeNum < 0 {
        assert false;
      }
      AddToCurDir(dest, inodeNum);
      SourceElsewhere(old(fs), fs, f);
      var newInode := FillFromFile(f);
      WriteInode(inodeNum, newInode);
    }

    // ---- remove, link, cat ----

    /** The loops of remove that free every block of a file. */
    method FreeBlocksOf(f: Inode)
      requires Valid() && Source(fs, f)
      modifies this`fs, this`freeBlockCount, blockMap.bytes
      ensures Valid() && Freeing(old(fs), fs, Owned(old(fs).disk, f))
    {
      hide Valid, PutAll, Freed, Put, Freeing, FileShaped, DataBlocks, PointersAt;
      ghost var s, o := fs, Owned(fs.disk, f);
      OwnedShape(s, f);
      FreeingNothing(s);
      var i := 0;
      while i < DIRECT && i < f.blockCount
        invariant 0 <= i <= f.blockCount && i <= DIRECT && Valid()
        invariant Freeing(s, fs, o[..i])
      {
        SourceBlock(s, f, i);
        FreeStep(s, fs, o[..i], f.direct[i]);
        assert o[..i] + [f.direct[i]] == o[..i + 1];
        FreeBlock(f.direct[i]);
        i := i + 1;
      }
      if f.blockCount > DIRECT {
        SameDisk(s, fs, o[..i]);
        var from := ReadPointers(f.indirect);
        while i < f.blockCount
          invariant DIRECT <= i <= f.blockCount && Valid()
          invariant Freeing(s, fs, o[..i])
        {
          SourceBlock(s, f, i);
          FreeStep(s, fs, o[..i], from[i - DIRECT]);
          assert o[..i] + [from[i - DIRECT]] == o[..i + 1];
          FreeBlock(from[i - DIRECT]);
          i := i + 1;
        }
        SourceBlock(s, f, i);
        FreeStep(s, fs, o[..i], f.indirect);
        assert o[..i] + [f.indirect] == o;
        FreeBlock(f.indirect);
      } else {
        assert o[..i] == o;
      }
    }

    /** `file_remove` */
    method FileRemove(name: seq<char>) returns (r: Reply)
      requires Valid() && Inv(fs)
      modifies this`fs, this`freeInodeCount, this`freeBlockCount, this`numEntry
      modifies inodeMap.bytes, blockMap.bytes, inode, dentry
      ensures Shaped(old(fs).cur) && Valid() && (fs, r) == Remove(old(fs), name)
    {
      hide Valid, Inv, PutAll, Freed, Put, Source, Owned, RemoveEntry, CStr;
      Known();
      var ret := SearchCurDir(name);
      if ret == -1 {
        return NotFound;
      }
      FoundIsSource(fs, name);
      FoundBits(fs, name);
      var f := inode[ret];
      if f.kind != File {
        return NotAFile;
      }
      ghost var s := fs;
      f := f.(linkCount := f.linkCount - 1);
      WriteInode(ret, f);
      if f.linkCount <= 0 {
        SourceLinks(s, fs, s.inodes[ret], f.linkCount);
        FreeBlocksOf(f);
        FreeInode(ret);
      }
      var k := IndexOf(name);
      ShiftOut(k);
      r := Ok;
    }

    /** `hard_link` */
    method HardLink(src: seq<char>, dest: seq<char>) returns (r: Reply)
      requires Valid() && Inv(fs) && ValidName(dest)
      modifies this`fs, this`numEntry, inode, dentry
      ensures Shaped(old(fs).cur) && Valid() && (fs, r) == Link(old(fs), src, dest)
    {
      hide Valid, Inv, AddEntry, CStr;
      Known();
      var ret := SearchCurDir(src);
      if ret == -1 {
        return NotFound;
      }
      if numEntry + 1 > MAX_DIR_ENTRY {
        return DirectoryFull;
      }
      FoundIsSource(fs, src);
      var f := inode[ret];
      f := f.(linkCount := f.linkCount + 1);
      WriteInode(ret, f);
      AddToCurDir(dest, ret);
      r := Ok;
    }

    /** One block of `file_cat`: read into `buf`, terminated, and printed. */
    method PrintBlock(b: int, left: nat, buf: array<char>) returns (out: seq<char>)
      requires Valid() && buf.Length == BLOCK_SIZE + 1 && |BytesAt(fs.disk, b)| == BLOCK_SIZE && left > 0
      modifies buf
      ensures out == CatBlock(BytesAt(fs.disk, b), left)
    {
      hide Valid, CStr;
      var bytes := ReadBytes(b);
      forall j | 0 <= j < BLOCK_SIZE {
        buf[j] := bytes[j];
      }
      if left >= BLOCK_SIZE {
        buf[BLOCK_SIZE] := '\0';
        assert buf[..] == bytes + ['\0'];
      } else {
        buf[left + 1] := '\0';
        SameString(buf[..], (bytes + ['\0'])[left + 1 := '\0'], left + 1);
      }
      out := CStr(buf[..]);
    }

    /** The loops of `file_cat`. */
    method PrintFile(f: Inode) returns (out: seq<char>)
      requires Valid() && Printable(fs.disk, f)
      ensures out == CatBlocks(Contents(fs.disk, f), f.size)
    {
      hide Valid, CatBlock, CatBlocks, Contents, BytesAt, PointersAt, BlocksFor, Shaped;
      var buf := new char[BLOCK_SIZE + 1];
      ghost var cs := Contents(fs.disk, f);
      var left, i := f.size, 0;
      out := [];
      while i < DIRECT && i < f.blockCount
        modifies buf
        invariant 0 <= i <= f.blockCount && i <= DIRECT && left == f.size - i * BLOCK_SIZE
        invariant out + CatBlocks(cs[i..], left) == CatBlocks(cs, f.size)
      {
        CatStep(cs, i, left, out);
        StillLeft(f.size, i);
        var line := PrintBlock(f.direct[i], left, buf);
        out := out + line;
        left := left - BLOCK_SIZE;
        i := i + 1;
      }
      if f.blockCount > DIRECT {
        var rest := PrintRest(f, left, buf);
        out := out + rest;
      } else {
        CatNothing(cs[i..], left);
      }
    }

    /** The second of them, over the indirect blocks. */
    method PrintRest(f: Inode, size: int, buf: array<char>) returns (out: seq<char>)
      requires Valid() && Printable(fs.disk, f) && f.blockCount > DIRECT && buf.Length == BLOCK_SIZE + 1
      requires size == f.size - DIRECT * BLOCK_SIZE && buf as object !in Arrays()
      modifies buf
      ensures out == CatBlocks(Contents(fs.disk, f)[DIRECT..], size)
    {
      hide Valid, CatBlock, CatBlocks, Contents, BytesAt, PointersAt, BlocksFor, Shaped;
      ghost var cs := Contents(fs.disk, f);
      var left, i := size, DIRECT;
      var from := ReadPointers(f.indirect);
      out := [];
      while i < f.blockCount
        invariant DIRECT <= i <= f.blockCount && left == f.size - i * BLOCK_SIZE
        invariant out + CatBlocks(cs[i..], left) == CatBlocks(cs[DIRECT..], size)
      {
        CatStep(cs, i, left, out);
        StillLeft(f.size, i);
        var line := PrintBlock(from[i - DIRECT], left, buf);
        out := out + line;
        left := left - BLOCK_SIZE;
        i := i + 1;
      }
      CatNothing(cs[i..], left);
    }

    /** `file_cat`; `out` is what it prints of a file.  Of a directory it would print the bytes of the block. */
    method FileCat(name: seq<char>) returns (r: Reply, out: seq<char>)
      requires Valid() && Inv(fs)
      ensures Shaped(fs.cur) && r == (if Search(fs.cur, name) >= 0 then Ok else NotFound)
      ensures r == Ok && !LiveDir(fs, Search(fs.cur, name)) ==> out == Cat(fs, Search(fs.cur, name))
    {
      hide Valid, Inv, CatBlocks, Contents, Printable;
      Known();
      out := [];
      var ret := SearchCurDir(name);
      if ret == -1 {
        return NotFound, [];
      }
      FoundIsFile(fs, name);
      var f := inode[ret];
      if f.kind == File {
        out := PrintFile(f);
      }
      r := Ok;
    }

    // ---- directory.c ----

    /** `dir_make`; `junk` is what the local variable for the new directory held before. */
    method DirMake(name: seq<char>, junk: seq<Entry>) returns (r: Reply)
      requires Valid() && Inv(fs) && ValidName(name) && Shaped(Dentry(0, junk))
      modifies this`fs, this`freeInodeCount, this`freeBlockCount, this`numEntry
      modifies inodeMap.bytes, blockMap.bytes, inode, disk, dentry
      ensures Shaped(old(fs).cur) && Valid() && (fs, r) == MakeDir(old(fs), name, junk)
    {
      hide Valid, Inv, FirstFree, Put, AddEntry, Search, CStr, Written;
      Known();
      CountsOf(fs);
      if name == DOT || name == DOTDOT {
        return DotName;
      }
      var ret := SearchCurDir(name);
      if ret >= 0 {
        return Exists;
      }
      if numEntry + 1 > MAX_DIR_ENTRY {
        return DirectoryFull;
      }
      if freeInodeCount < 1 {
        return NoInode;
      }
      var inodeNum := GetInode();
      var newBlock := GetBlock();
      WriteInode(inodeNum, Inode(Directory, 1, 1, [newBlock], 0, 1));
      var newDir := junk[0 := Entry(Written(junk[0].name, DOT), inodeNum)];
      ret := SearchCurDir(DOT);
      if ret == -1 {
        return NoDot;
      }
      newDir := newDir[1 := Entry(Written(newDir[1].name, DOTDOT), ret)];
      WriteDiskBlock(newBlock, Listing(Dentry(2, newDir)));
      AddToCurDir(name, inodeNum);
      r := Ok;
    }

    /** `dir_remove` */
    method DirRemove(name: seq<char>) returns (r: Reply)
      requires Valid() && Inv(fs)
      modifies this`fs, this`freeInodeCount, this`freeBlockCount, this`numEntry
      modifies inodeMap.bytes, blockMap.bytes, inode, dentry
      ensures Shaped(old(fs).cur) && Valid() && (fs, r) == RemoveDir(old(fs), name)
    {
      hide Valid, Inv, Put, RemoveEntry, CStr, ListingAt, FindFrom, PutAll, Freed, Owned;
      Known();
      if name == DOT || name == DOTDOT {
        return DotName;
      }
      var ret := SearchCurDir(name);
      if ret == -1 {
        return NotFound;
      }
      FoundIsDir(fs, name);
      FoundBits(fs, name);
      var node := inode[ret];
      if node.kind != Directory {
        return NotADirectory;
      }
      var dir := ReadListing(node.direct[0]);
      if dir.numEntry != 2 {
        return NotEmpty;
      }
      ghost var s := fs;
      node := node.(linkCount := node.linkCount - 1);
      WriteInode(ret, node);
      if node.linkCount <= 0 {
        FreedOne(s.blockMap, node.direct[0]);
        FreeBlock(node.direct[0]);
        FreeInode(ret);
      }
      var k := IndexOf(name);
      ShiftOut(k);
      r := Ok;
    }

    /** `read_disk_block` into the current directory. */
    method LoadCurDir(b: int)
      requires Valid() && Shaped(ListingAt(fs.disk, b))
      modifies this`fs, this`numEntry, this`curDirBlock, dentry
      ensures Valid() && fs == old(fs).(cur := ListingAt(old(fs).disk, b), curBlock := b)
    {
      hide Bits, ListingAt;
      curDirBlock := b;
      var d := ListingAt(disk[..], b);
      forall k | 0 <= k < MAX_DIR_ENTRY {
        dentry[k] := d.slots[k];
      }
      numEntry := d.numEntry;
      fs := fs.(cur := d, curBlock := b);
      assert dentry[..] == d.slots;
    }

    /** The current directory, written to its block. */
    method SaveCurDir()
      requires Valid()
      modifies this`fs, disk
      ensures Valid() && fs == old(fs).(disk := Put(old(fs).disk, old(fs).curBlock, Listing(old(fs).cur)))
    {
      hide Bits, Put;
      WriteDiskBlock(curDirBlock, Listing(Dentry(numEntry, dentry[..])));
    }

    /** `dir_change` */
    method DirChange(name: seq<char>) returns (r: Reply)
      requires Valid() && Inv(fs)
      modifies this`fs, this`numEntry, this`curDirBlock, disk, dentry
      ensures Shaped(old(fs).cur) && Valid() && (fs, r) == ChangeDir(old(fs), name)
    {
      hide Valid, Inv, CStr, ListingAt, Put, Search;
      Known();
      var ret := SearchCurDir(name);
      if ret == -1 {
        return NotFound;
      }
      FoundIsDir(fs, name);
      var node := inode[ret];
      if node.kind != Directory {
        return NotADirectory;
      }
      EnteredIsShaped(fs, name);
      SaveCurDir();
      LoadCurDir(node.direct[0]);
      r := Ok;
    }

    // ---- mounting ----

    /** The loop over the inode bitmap. */
    method ClearInodeBits()
      requires Valid()
      modifies this`fs, inodeMap.bytes
      ensures Valid() && fs == old(fs).(inodeMap := ClearedInodes(old(fs).inodeMap))
    {
      hide Bits, BitOf, Shaped;
      InRange();
      ghost var m := fs.inodeMap;
      for i := 0 to inodeMap.bytes.Length
        modifies inodeMap.bytes
        invariant |inodeMap.View()| == |m| && forall j :: 0 <= j < |m| ==>
                  inodeMap.View()[j] == if j < i then false else m[j]
      {
        inodeMap.SetBit(i, 0);
      }
      fs := fs.(inodeMap := ClearedInodes(m));
      assert inodeMap.View() == fs.inodeMap;
    }

    /** The loop over the block bitmap. */
    method ReserveBlocks()
      requires Valid()
      modifies this`fs, blockMap.bytes
      ensures Valid() && fs == old(fs).(blockMap := ReservedBlocks(old(fs).blockMap))
    {
      hide Bits, BitOf, Shaped;
      InRange();
      ghost var m := fs.blockMap;
      for i := 0 to blockMap.bytes.Length
        modifies blockMap.bytes
        invariant |blockMap.View()| == |m| && forall j :: 0 <= j < |m| ==>
                  blockMap.View()[j] == if j < i then j < RESERVED else m[j]
      {
        if i < RESERVED {
          blockMap.SetBit(i, 1);
        } else {
          blockMap.SetBit(i, 0);
        }
      }
      fs := fs.(blockMap := ReservedBlocks(m));
      assert blockMap.View() == fs.blockMap;
    }

    /** `fs_mount` where there is no image: formatting. */
    method MountFresh()
      requires Valid() && Memory(fs)
      modifies this`fs, this`freeInodeCount, this`freeBlockCount, this`numEntry, this`curDirBlock
      modifies inodeMap.bytes, blockMap.bytes, inode, disk, dentry
      ensures Valid() && fs == Format(old(fs))
    {
      hide Valid, ClearedInodes, ReservedBlocks, FirstFree, Put, Written;
      ghost var z := fs;
      Known();
      ResetCounts();
      ClearInodeBits();
      ReserveBlocks();
      RootIsFree(z);
      var rootInode := GetInode();
      var block := GetBlock();
      SetCurDirBlock(block);
      Known();
      WriteInode(rootInode, inode[rootInode].(kind := Directory, size := 1, blockCount := 1, direct := [block]));
      StartCurDir(rootInode);
      SaveCurDir();
    }

    /** `fs_umount`: the header, the inode table block by block, and the current directory. */
    method Unmount()
      requires Valid() && Layout(fs)
      modifies this`fs, disk
      ensures Valid() && fs == old(fs).(disk := Image(old(fs)))
    {
      hide Bits, Shaped, HeaderBlock;
      ghost var s := fs;
      var inodeBits := Snapshot(inodeMap);
      var blockBits := Snapshot(blockMap);
      assert HeaderTo(s, 0) == s.disk;
      HeaderStart(s);
      WriteDiskBlock(0, SuperBlock(freeBlockCount, freeInodeCount));
      WriteDiskBlock(1, Flags(inodeBits));
      WriteDiskBlock(2, Flags(blockBits));
      for i := 0 to RESERVED - TABLE
        invariant Valid() && fs == s.(disk := HeaderTo(s, TABLE + i))
      {
        HeaderNext(s, i);
        WriteDiskBlock(TABLE + i, Table(inode[INODES_PER_BLOCK * i..INODES_PER_BLOCK * i + INODES_PER_BLOCK]));
      }
      SaveCurDir();
    }

    /** The bits of a bitmap, as `write_disk_block` copies them. */
    method Snapshot(m: Bitmap) returns (bits: seq<bool>)
      ensures bits == m.View()
    {
      hide BitOf, Bits;
      bits := [];
      for i := 0 to 8 * m.bytes.Length
        invariant bits == m.View()[..i]
      {
        bits := bits + [m.GetBit(i)];
      }
      assert m.View()[..|m.View()|] == m.View();
    }

    /** The bits read into a bitmap. */
    method Restore(m: Bitmap, bits: seq<bool>)
      requires |bits| == 8 * m.bytes.Length
      modifies m.bytes
      ensures m.View() == bits
    {
      hide BitOf, Bits;
      for i := 0 to 8 * m.bytes.Length
        invariant |m.View()| == |bits| && forall j :: 0 <= j < i ==> m.View()[j] == bits[j]
      {
        m.SetBit(i, if bits[i] then 1 else 0);
      }
    }

    /** `fs_mount` of an image, into memory of the same sizes. */
    method MountImage()
      requires Valid() && Mountable(fs.disk) && Layout(fs) && |fs.inodeMap| == |fs.inodes| && |fs.blockMap| == |fs.disk|
      requires TableOf(fs.disk)[ROOT].direct != [] && Shaped(Mounted(fs.disk).cur)
      modifies this`fs, this`freeInodeCount, this`freeBlockCount, this`numEntry, this`curDirBlock
      modifies inodeMap.bytes, blockMap.bytes, inode, dentry
      ensures Valid() && fs == Mounted(old(fs).disk)
    {
      hide Valid, Mountable, ListingAt;
      ghost var d := fs.disk;
      LoadMaps();
      LoadTable();
      Known();
      LoadCurDir(inode[ROOT].direct[0]);
    }

    method LoadMaps()
      requires Valid() && Mountable(fs.disk) && |fs.inodeMap| == INODES_PER_BLOCK * (RESERVED - TABLE) &&
               |fs.blockMap| == |fs.disk|
      modifies this`fs, this`freeInodeCount, this`freeBlockCount, inodeMap.bytes, blockMap.bytes
      ensures var d := old(fs).disk;
              Valid() && Mountable(d) && fs == old(fs).(inodeMap := d[1].bits, blockMap := d[2].bits,
                                                        freeInodes := d[0].freeInodeCount,
                                                        freeBlocks := d[0].freeBlockCount)
    {
      hide Bits, Shaped;
      InRange();
      freeBlockCount, freeInodeCount := disk[0].freeBlockCount, disk[0].freeInodeCount;
      Restore(inodeMap, disk[1].bits);
      Restore(blockMap, disk[2].bits);
      fs := fs.(inodeMap := fs.disk[1].bits, blockMap := fs.disk[2].bits, freeInodes := freeInodeCount,
        freeBlocks := freeBlockCount);
    }

    /** The inode table, block by block. */
    method LoadTable()
      requires Valid() && Mountable(fs.disk) && |fs.inodes| == INODES_PER_BLOCK * (RESERVED - TABLE)
      modifies this`fs, inode
      ensures Valid() && fs == old(fs).(inodes := TableOf(old(fs).disk))
    {
      hide Bits, Shaped;
      ghost var d := fs.disk;
      for i := 0 to RESERVED - TABLE
        modifies inode
        invariant forall j :: 0 <= j < INODES_PER_BLOCK * i ==> inode[j] == TableOf(d)[j]
      {
        var part := disk[TABLE + i].inodes;
        forall k | 0 <= k < INODES_PER_BLOCK {
          inode[INODES_PER_BLOCK * i + k] := part[k];
        }
        forall j | INODES_PER_BLOCK * i <= j < INODES_PER_BLOCK * i + INODES_PER_BLOCK
          ensures inode[j] == TableOf(d)[j]
        {
          assert inode[INODES_PER_BLOCK * i + (j - INODES_PER_BLOCK * i)] == part[j - INODES_PER_BLOCK * i];
        }
      }
      assert inode[..] == TableOf(d);
      fs := fs.(inodes := TableOf(d));
    }

    method ResetCounts()
      requires Valid()
      modifies this`fs, this`freeInodeCount, this`freeBlockCount
      ensures Valid() && fs == old(fs).(freeInodes := |old(fs).inodeMap|, freeBlocks := |old(fs).blockMap| - RESERVED)
    {
      hide Bits, Shaped;
      InRange();
      freeInodeCount, freeBlockCount := 8 * inodeMap.bytes.Length, 8 * blockMap.bytes.Length - RESERVED;
      fs := fs.(freeInodes := freeInodeCount, freeBlocks := freeBlockCount);
    }

    method SetCurDirBlock(b: int)
      requires Valid()
      modifies this`fs, this`curDirBlock
      ensures Valid() && fs == old(fs).(curBlock := b)
    {
      hide Bits, Shaped;
      curDirBlock := b;
      fs := fs.(curBlock := b);
    }

    /** The root directory in memory: one entry, itself. */
    method StartCurDir(self: nat)
      requires Valid()
      modifies this`fs, this`numEntry, dentry
      ensures Valid()
      ensures fs == old(fs).(cur := Dentry(1,
              old(fs).cur.slots[0 := Entry(Written(old(fs).cur.slots[0].name, DOT), self)]))
    {
      hide Bits;
      numEntry := 1;
      assert dentry[0] == fs.cur.slots[0];
      dentry[0] := Entry(Written(dentry[0].name, DOT), self);
      fs := fs.(cur := Dentry(1, fs.cur.slots[0 := dentry[0]]));
    }

    // ---- the command loop ----

    /** `execute_command` */
    method ExecuteCommand(c: Command) returns (r: Reply, out: seq<char>)
      requires Valid() && Inv(fs) && Plain(fs, c)
      modifies this`fs, this`freeInodeCount, this`freeBlockCount, this`numEntry, this`curDirBlock
      modifies inodeMap.bytes, blockMap.bytes, inode, disk, dentry
      ensures Valid() && CopyReady(old(fs), c) && (fs, r) == Effect(old(fs), c)
      ensures Inv(fs) <==> Admissible(old(fs), c) || r != Ok
      ensures c.CatFile? && r == Ok && !LiveDir(fs, Search(fs.cur, c.name)) ==> out == Cat(fs, Search(fs.cur, c.name))
    {
      hide Valid, Inv, Create, Copy, Remove, Link, MakeDir, RemoveDir, ChangeDir, Search, Cat;
      CopyIsReady(fs, c);
      ghost var s := fs;
      GeneratedFits(fs, c);
      out := [];
      match c {
        case CreateFile(name, size, buf) => r := FileCreate(name, size, buf);
        case CatFile(name) => r, out := FileCat(name);
        case RemoveFile(name) => r := FileRemove(name);
        case HardLink(src, dest) => r := HardLink(src, dest);
        case CopyFile(src, dest) => r := FileCopy(src, dest);
        case MakeDirectory(name, junk) => r := DirMake(name, junk);
        case RemoveDirectory(name) => r := DirRemove(name);
        case ChangeDirectory(name) => r := DirChange(name);
      }
      assert (fs, r) == Effect(s, c);
      CommandKeepsInvIff(s, c);
    }

    /** The loop of `main` over the commands it is given. */
    method Session(cs: seq<Command>)
      requires Valid() && Inv(fs) && Legal(fs, cs)
      modifies this`fs, this`freeInodeCount, this`freeBlockCount, this`numEntry, this`curDirBlock
      modifies inodeMap.bytes, blockMap.bytes, inode, disk, dentry
      ensures Valid() && Inv(fs) && fs == RunAll(old(fs), cs)
    {
      hide Valid, Inv, Execute, Admissible, LiveDir, Search, Cat;
      var i := 0;
      assert cs[0..] == cs;
      while i < |cs|
        invariant 0 <= i <= |cs| && Valid() && Inv(fs) && Legal(fs, cs[i..])
        invariant RunAll(fs, cs[i..]) == RunAll(old(fs), cs)
      {
        assert cs[i..][0] == cs[i] && cs[i..][1..] == cs[i + 1..];
        LegalStep(fs, cs[i..]);
        var r, out := ExecuteCommand(cs[i]);
        i := i + 1;
      }
    }

    /** What `Valid` says about the fields a method reads directly. */
    lemma Known()
      requires Valid()
      ensures Shaped(fs.cur) && numEntry == fs.cur.numEntry && curDirBlock == fs.curBlock
      ensures freeInodeCount == fs.freeInodes && freeBlockCount == fs.freeBlocks
      ensures inode[..] == fs.inodes && dentry[..] == fs.cur.slots
    {
    }
  }
}
