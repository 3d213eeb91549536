/** Where the commands meet the invariant and where they do not, exactly; and why no allocation fails half-way. */
module FileSystemLimits {
  import opened Sequences
  import opened FileSystemModel
  import opened FileSystemInvariant
  import opened FileSystemGrowth
  import opened FileSystemCreation
  import opened FileSystemRemoval
  import opened FileSystemRuns
  import opened FileSystemTheorems
  import opened FileSystemFormat
  import opened FileSystemContents

  // ---- allocation ----

  /** A row of `get_block` calls all succeed exactly when the count covers them. */
  lemma {:induction false} AllocSucceedsIff(m: seq<bool>, n: nat)
    ensures (forall k :: 0 <= k < n ==> Alloc(m, n)[k] >= 0) <==> n <= CountFalse(m)
  {
    var c := CountFalse(m);
    if n <= c {
      AllocSucceeds(m, n);
    } else {
      AllocSucceeds(m, c);
      SetCount(m, Alloc(m, c));
      FirstFreeSucceeds(PutAll(m, Alloc(m, c), true));
      AllocPrefix(m, n, c + 1);
      assert Alloc(m, n)[c] == Alloc(m, n)[..c + 1][c] == Alloc(m, c + 1)[c] < 0;
    }
  }

  /**
   The check made before anything is changed is exact: for a file of any size, every `get_block`
   and `get_inode` that create or copy goes on to make succeeds if and only if the cached counts
   pass it.
   */
  lemma {:induction false} SpaceCheckIsExact(s: Fs, size: nat)
    requires Inv(s)
    ensures FirstFree(s.inodeMap, 0) >= 0 <==> s.freeInodes >= 1
    ensures (forall k :: 0 <= k < Needed(size) ==> Alloc(s.blockMap, Needed(size))[k] >= 0) <==>
            Needed(size) <= s.freeBlocks
  {
    hide OwnersRight, BlocksRight, FilesRight, DirsRight, LinksRight, RootRight, HereRight, Alloc;
    FirstFreeSucceeds(s.inodeMap);
    AllocSucceedsIff(s.blockMap, Needed(size));
  }

  // ---- ln on a directory ----

  /** A link keeps the invariant if and only if what it names is not a directory. */
  lemma {:induction false} LinkKeepsInvIff(s: Fs, src: seq<char>, dest: seq<char>)
    requires Inv(s) && Shaped(s.cur) && ValidName(dest) && Link(s, src, dest).1 == Ok
    ensures Inv(Link(s, src, dest).0) <==> !LiveDir(s, Search(s.cur, src))
  {
    hide InvBy, AddLink, CStr;
    var g :| InvBy(s, g);
    var i, t := Search(s.cur, src), Link(s, src, dest).0;
    if LiveDir(s, i) {
      if h :| InvBy(t, h) {
        LinkedDirCount(s, g, i, dest);
        DirLinkCount(t, h, i);
        assert false;
      }
    } else {
      LinkKeepsInv(s, g, src, dest);
    }
  }

  /** A directory has one link, the root none. */
  lemma DirLinkCount(s: Fs, g: Tree, d: nat)
    requires InvBy(s, g) && LiveDir(s, d)
    ensures InodeAt(s, d).linkCount == if d == ROOT then 0 else 1
  {
    hide OwnersRight, BlocksRight, FilesRight, DirsRight, Sized;
    assert d != ROOT ==> LinkRight(s, g, d);
  }

  lemma LinkedDirCount(s: Fs, g: Tree, d: nat, dest: seq<char>)
    requires InvBy(s, g) && LiveDir(s, d) && Shaped(s.cur) && s.cur.numEntry < MAX_DIR_ENTRY && ValidName(dest)
    ensures var t := AddLink(s, d, dest);
            LiveDir(t, d) && InodeAt(t, d).linkCount == (if d == ROOT then 1 else 2)
  {
    DirLinkCount(s, g, d);
  }

  // ---- mkdir on a full disk ----

  /** Mkdir keeps the invariant if and only if there was a free block. */
  lemma {:induction false} MakeDirKeepsInvIff(s: Fs, name: seq<char>, junk: seq<Entry>)
    requires Inv(s) && Shaped(s.cur) && ValidName(name) && Shaped(Dentry(0, junk)) && MakeDir(s, name, junk).1 == Ok
    ensures Inv(MakeDir(s, name, junk).0) <==> s.freeBlocks >= 1
  {
    hide InvBy, MakeDir, Grown, NewDirRight;
    var g :| InvBy(s, g);
    var t := MakeDir(s, name, junk).0;
    if s.freeBlocks >= 1 {
      MakeDirGrows(s, g, name, junk);
      GrownKeepsInv(s, g, t, FirstFree(s.inodeMap, 0), [FirstFree(s.blockMap, 0)], name);
    } else {
      if h :| InvBy(t, h) {
        NoBlockForDir(s, g, name, junk);
        DirHasBlock(t, h, FirstFree(s.inodeMap, 0));
        assert false;
      }
    }
  }

  lemma DirHasBlock(s: Fs, g: Tree, d: nat)
    requires InvBy(s, g) && LiveDir(s, d)
    ensures DirBlock(InodeAt(s, d)) >= 0
  {
    hide OwnersRight, BlocksRight, FilesRight, LinksRight, Sized, DotsRight, EntriesRight;
    assert DirRight(s, g, d);
  }

  lemma NoBlockForDir(s: Fs, g: Tree, name: seq<char>, junk: seq<Entry>)
    requires InvBy(s, g) && Shaped(s.cur) && ValidName(name) && Shaped(Dentry(0, junk))
    requires MakeDir(s, name, junk).1 == Ok && s.freeBlocks < 1
    ensures var t, i := MakeDir(s, name, junk).0, FirstFree(s.inodeMap, 0);
            i >= 0 && LiveDir(t, i) && DirBlock(InodeAt(t, i)) == -1
  {
    hide OwnersRight, BlocksRight, FilesRight, LinksRight, DirsRight, CStr;
    FirstFreeSucceeds(s.blockMap);
  }

  // ---- all commands ----

  /**
   What the invariant asks of a command, exactly: one that succeeds keeps it if and only if it is no
   link to a directory and no directory made without a free block; one that fails always does.
   */
  lemma {:induction false} CommandKeepsInvIff(s: Fs, c: Command)
    requires Inv(s) && Plain(s, c) && CopyReady(s, c)
    ensures Inv(Effect(s, c).0) <==> Admissible(s, c) || Effect(s, c).1 != Ok
  {
    hide InvBy, Create, Copy, Remove, Link, MakeDir, RemoveDir, ChangeDir, LiveDir, Search;
    var g :| InvBy(s, g);
    if Effect(s, c).1 != Ok {
      FailureKeepsState(s, g, c);
    } else if Admissible(s, c) {
      CommandKeepsInv(s, c);
    } else if c.HardLink? {
      LinkKeepsInvIff(s, c.src, c.dest);
    } else {
      MakeDirKeepsInvIff(s, c.name, c.junk);
    }
  }

  // ---- inputs that fail ----

  /** Create succeeds when nothing is in its way, and leaves this behind. */
  lemma CreateSucceeds(s: Fs, g: Tree, name: seq<char>, size: nat, buf: seq<char>) returns (i: nat, h: Tree)
    requires InvBy(s, g) && ValidName(name) && 0 < size <= MAX_SIZE && Generated(buf, size)
    requires Shaped(s.cur) && Search(s.cur, name) < 0 && s.cur.numEntry < MAX_DIR_ENTRY
    requires s.freeInodes >= 1 && Needed(size) <= s.freeBlocks
    ensures |buf| == BlocksFor(size) * BLOCK_SIZE
    ensures var (t, r) := Create(s, name, size, buf);
            && r == Ok && InvBy(t, h) && LiveFile(t, i) && i == FirstFree(s.inodeMap, 0)
            && t.cur == AddEntry(s.cur, name, i)
            && t.freeInodes == s.freeInodes - 1 && t.freeBlocks == s.freeBlocks - Needed(size)
  {
    hide InvBy, Install, Grow, Alloc, PutAll, Search, AddEntry, LiveFile, Owned, Contents;
    GeneratedSize(buf, size);
    SpaceCheckIsExact(s, size);
    CountsAreCached(s);
    i := FirstFree(s.inodeMap, 0);
    h := if g.here in g.depth then Grow(g, i, Alloc(s.blockMap, Needed(size))) else g;
    CreateKeepsInv(s, g, name, size, buf);
  }

  lemma CountsAreCached(s: Fs)
    requires Inv(s)
    ensures |s.inodeMap| == |s.inodes| && s.freeInodes == CountFalse(s.inodeMap) &&
            s.freeBlocks == CountFalse(s.blockMap)
  {
  }

  /** A name is absent exactly when no entry carries it. */
  lemma AbsentIff(d: Dentry, name: seq<char>)
    requires Shaped(d)
    ensures Search(d, name) < 0 <==> forall k :: 0 <= k < d.numEntry ==> CStr(d.slots[k].name) != name
  {
  }

  /** The first entry that carries a name is the one found. */
  lemma FoundAt(d: Dentry, name: seq<char>, k: nat)
    requires Shaped(d) && k < d.numEntry && CStr(d.slots[k].name) == name
    requires forall j :: 0 <= j < k ==> CStr(d.slots[j].name) != name
    ensures FindFrom(d, name, 0) == k && Search(d, name) == d.slots[k].inode
  {
  }

  /** Two entries added in a row under fresh names are found, each at its place. */
  lemma TwoAdded(d: Dentry, a: seq<char>, i: nat, b: seq<char>, j: nat)
    requires Shaped(d) && d.numEntry + 2 <= MAX_DIR_ENTRY && ValidName(a) && ValidName(b) && a != b
    requires Search(d, a) < 0 && Search(d, b) < 0
    ensures var n, e := d.numEntry, AddEntry(AddEntry(d, a, i), b, j);
            && Search(AddEntry(d, a, i), b) < 0
            && FindFrom(e, a, 0) == n && Search(e, a) == i && FindFrom(e, b, 0) == n + 1 && Search(e, b) == j
            && e.slots[n].name == Written(d.slots[n].name, a) && e.slots[n + 1].name == Written(d.slots[n + 1].name, b)
            && (forall k :: 0 <= k < n ==> e.slots[k] == d.slots[k])
  {
    hide CStr, Written, FindFrom, Search;
    WrittenLengths(d, a, i, b, j);
    var n, c := d.numEntry, AddEntry(d, a, i);
    var e := AddEntry(c, b, j);
    CStrWritten(d.slots[n].name, a);
    CStrWritten(d.slots[n + 1].name, b);
    AbsentIff(d, a);
    AbsentIff(d, b);
    AbsentIff(c, b);
    FoundAt(e, a, n);
    FoundAt(e, b, n + 1);
  }

  lemma WrittenLengths(d: Dentry, a: seq<char>, i: nat, b: seq<char>, j: nat)
    requires Shaped(d) && d.numEntry + 2 <= MAX_DIR_ENTRY && ValidName(a) && ValidName(b)
    ensures Shaped(AddEntry(AddEntry(d, a, i), b, j))
  {
  }

  /** The name the shift leaves when `b` is moved over the longer `a`: the tail of `a` shows through. */
  lemma OverlayLeavesTail(dst: seq<char>, a: seq<char>, src: seq<char>, b: seq<char>)
    requires |dst| == |src| && |b| < |a| < |dst| && '\0' !in a && '\0' !in b
    ensures |Written(dst, a)| == |Written(src, b)|
    ensures CStr(Overlay(Written(dst, a), Written(src, b))) == b + a[|b|..]
  {
    hide CStr;
    CStrWritten(src, b);
    OverlayName(Written(dst, a), Written(src, b));
    assert Written(dst, a)[|b|..] == Written(dst[|b|..], a[|b|..]);
    CStrWritten(dst[|b|..], a[|b|..]);
  }

  /** The directory after the first of two new entries has been removed. */
  lemma SecondIsRenamed(d: Dentry, a: seq<char>, i: nat, b: seq<char>, j: nat)
    requires Shaped(d) && d.numEntry + 2 <= MAX_DIR_ENTRY && ValidName(a) && ValidName(b) && |b| < |a|
    requires Search(d, a) < 0 && Search(d, b) < 0 && Search(d, b + a[|b|..]) < 0
    ensures var e := RemoveEntry(AddEntry(AddEntry(d, a, i), b, j), d.numEntry);
            Search(e, b) < 0 && Search(e, b + a[|b|..]) == j
  {
    hide CStr, Written, FindFrom, Search, Overlay, AddEntry, Shift;
    RoomForTwo(d, a, i);
    AddedCount(d, a, i, b, j);
    var n, added, tail := d.numEntry, AddEntry(AddEntry(d, a, i), b, j), b + a[|b|..];
    TwoAdded(d, a, i, b, j);
    OverlayLeavesTail(d.slots[n].name, a, d.slots[n + 1].name, b);
    var e := RemoveEntry(added, n);
    AbsentIff(d, b);
    AbsentIff(d, tail);
    assert forall k :: 0 <= k < n ==> e.slots[k] == d.slots[k];
    AbsentIff(e, b);
    FoundAt(e, tail, n);
  }

  lemma AddedCount(d: Dentry, a: seq<char>, i: nat, b: seq<char>, j: nat)
    requires Shaped(d) && d.numEntry + 2 <= MAX_DIR_ENTRY && ValidName(a) && ValidName(b)
    ensures var e := AddEntry(AddEntry(d, a, i), b, j);
            e.numEntry == d.numEntry + 2 && e.slots[d.numEntry + 1].inode == j
  {
  }

  /**
   Names are lost in every state with room for two files: create `a`, create the shorter `b`, remove
   `a`, and `b` is gone; its file is found under `b` with the tail of `a`.
   */
  lemma {:induction false} ShiftRenames(s: Fs, g: Tree, a: seq<char>, b: seq<char>, bufA: seq<char>, bufB: seq<char>)
    requires InvBy(s, g) && ValidName(a) && ValidName(b) && |b| < |a| && Generated(bufA, 1) && Generated(bufB, 1)
    requires Shaped(s.cur) && s.cur.numEntry + 2 <= MAX_DIR_ENTRY && s.freeInodes >= 2 && s.freeBlocks >= 2
    requires Search(s.cur, a) < 0 && Search(s.cur, b) < 0 && Search(s.cur, b + a[|b|..]) < 0
    ensures |bufA| == |bufB| == BLOCK_SIZE
    ensures var (t, r) := Create(s, a, 1, bufA);
            r == Ok && Shaped(t.cur) &&
            var (u, q) := Create(t, b, 1, bufB);
            q == Ok && Shaped(u.cur) &&
            var (v, p) := Remove(u, a);
            p == Ok && Shaped(v.cur) && Search(u.cur, b) >= 0 && Search(v.cur, b) < 0 &&
              Search(v.cur, b + a[|b|..]) == Search(u.cur, b)
  {
    hide InvBy, Create, Generated, Search, AddEntry, RemoveEntry, FindFrom, CStr, PutAll, Owned, Freed;
    var i, h := CreateSucceeds(s, g, a, 1, bufA);
    var t := Create(s, a, 1, bufA).0;
    TwoAdded(s.cur, a, i, b, i);
    RoomForTwo(s.cur, a, i);
    var j, f := CreateSucceeds(t, h, b, 1, bufB);
    var u := Create(t, b, 1, bufB).0;
    TwoAdded(s.cur, a, i, b, j);
    SecondIsRenamed(s.cur, a, i, b, j);
    FoundFileIsRemovable(u, f, a);
    FirstStaysFile(s, h, t, i, b, bufB);
  }

  lemma RoomForTwo(d: Dentry, a: seq<char>, i: nat)
    requires Shaped(d) && d.numEntry + 2 <= MAX_DIR_ENTRY && |a| < MAX_FILE_NAME
    ensures AddEntry(d, a, i).numEntry == d.numEntry + 1
  {
  }

  /** The first file is a file still when the second has been created. */
  lemma FirstStaysFile(s: Fs, h: Tree, t: Fs, i: nat, b: seq<char>, bufB: seq<char>)
    requires InvBy(t, h) && LiveFile(t, i) && ValidName(b) && Generated(bufB, 1) && Shaped(t.cur)
    requires |bufB| == BLOCK_SIZE && Create(t, b, 1, bufB).1 == Ok
    ensures InodeAt(Create(t, b, 1, bufB).0, i).kind == File
  {
    hide InvBy, Create, Generated, Alloc, Contents;
    CreateKeepsInv(t, h, b, 1, bufB);
    OldInode(t, h, Create(t, b, 1, bufB).0, FirstFree(t.inodeMap, 0), Alloc(t.blockMap, Needed(1)), b, i);
  }

  /** On a freshly formatted disk, too. */
  lemma {:induction false} ShiftRenamesAtOnce(z: Fs, a: seq<char>, b: seq<char>, bufA: seq<char>, bufB: seq<char>)
    requires Memory(z) && Blank(z) && Generated(bufA, 1) && Generated(bufB, 1)
    requires ValidName(a) && ValidName(b) && |b| < |a| && a != DOT && b != DOT
    ensures |bufA| == |bufB| == BLOCK_SIZE && Shaped(Format(z).cur)
    ensures var t := Create(Format(z), a, 1, bufA).0;
            Shaped(t.cur) &&
            var u := Create(t, b, 1, bufB).0;
            Shaped(u.cur) &&
            var v := Remove(u, a).0;
            Shaped(v.cur) && Search(u.cur, b) >= 0 && Search(v.cur, b) < 0 &&
              Search(v.cur, b + a[|b|..]) == Search(u.cur, b)
  {
    hide InvBy, Create, Remove, Generated, CStr;
    FreshDisk(z);
    var s := Format(z);
    AbsentIff(s.cur, a);
    AbsentIff(s.cur, b);
    AbsentIff(s.cur, b + a[|b|..]);
    ShiftRenames(s, EMPTY_TREE, a, b, bufA, bufB);
  }

  /** A formatted disk: one entry, and room. */
  lemma FreshDisk(z: Fs)
    requires Memory(z) && Blank(z)
    ensures var s := Format(z);
            && InvBy(s, EMPTY_TREE) && Shaped(s.cur) && s.cur.numEntry == 1 && CStr(s.cur.slots[0].name) == DOT
            && s.cur.slots[0].inode == ROOT && LiveDir(s, ROOT) && s.freeInodes >= 7 && s.freeBlocks >= RESERVED
  {
    hide InvBy, CStr, Written;
    BlankFormat(z);
    HereDots(Format(z), EMPTY_TREE);
    RootIsDir(Format(z), EMPTY_TREE);
    BlankRoot(z);
  }

  /** The first command of all can lose the invariant: a link to ".", under any name. */
  lemma {:induction false} LinkToDotFails(z: Fs, dest: seq<char>)
    requires Memory(z) && Blank(z) && ValidName(dest)
    ensures Shaped(Format(z).cur)
    ensures var (t, r) := Link(Format(z), DOT, dest); r == Ok && !Inv(t)
  {
    hide InvBy, CStr, AddLink, Format;
    FreshDisk(z);
    FoundAt(Format(z).cur, DOT, 0);
    LinkKeepsInvIff(Format(z), DOT, dest);
  }

  /** A file that takes the last blocks, and then any new directory: both succeed, and the invariant is lost. */
  lemma {:induction false} MakeDirOnFullDiskFails(s: Fs, g: Tree, name: seq<char>, size: nat, buf: seq<char>,
          dir: seq<char>, junk: seq<Entry>)
    requires InvBy(s, g) && ValidName(name) && 0 < size <= MAX_SIZE && Generated(buf, size)
    requires Shaped(s.cur) && s.cur.numEntry + 2 <= MAX_DIR_ENTRY && s.freeInodes >= 2 && s.freeBlocks == Needed(size)
    requires ValidName(dir) && dir != name && dir != DOT && dir != DOTDOT && Shaped(Dentry(0, junk))
    requires Search(s.cur, name) < 0 && Search(s.cur, dir) < 0
    ensures |buf| == BlocksFor(size) * BLOCK_SIZE
    ensures var (t, r) := Create(s, name, size, buf);
            r == Ok && Inv(t) && Shaped(t.cur) &&
            var (u, q) := MakeDir(t, dir, junk);
            q == Ok && !Inv(u)
  {
    hide InvBy, Create, Generated, AddEntry, FindFrom, CStr, LiveFile;
    var i, h := CreateSucceeds(s, g, name, size, buf);
    var t := Create(s, name, size, buf).0;
    TwoAdded(s.cur, name, i, dir, i);
    RoomForTwo(s.cur, name, i);
    MakeDirSucceeds(t, h, dir, junk);
    MakeDirKeepsInvIff(t, dir, junk);
  }

  /** Mkdir looks for no free block. */
  lemma MakeDirSucceeds(s: Fs, g: Tree, name: seq<char>, junk: seq<Entry>)
    requires InvBy(s, g) && ValidName(name) && name != DOT && name != DOTDOT && Shaped(Dentry(0, junk))
    requires Shaped(s.cur) && Search(s.cur, name) < 0 && s.cur.numEntry < MAX_DIR_ENTRY && s.freeInodes >= 1
    ensures MakeDir(s, name, junk).1 == Ok
  {
    hide OwnersRight, BlocksRight, FilesRight, DirsRight, LinksRight, CStr, EntriesRight, AddEntry;
    HereDots(s, g);
    FirstFreeSucceeds(s.inodeMap);
    FoundAt(s.cur, DOT, 0);
  }
}
