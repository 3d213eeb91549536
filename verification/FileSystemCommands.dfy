/** What each command does to the names a user sees, and exactly when it succeeds. */
module FileSystemCommands {
  import opened Sequences
  import opened FileSystemModel
  import opened FileSystemInvariant
  import opened FileSystemGrowth
  import opened FileSystemCreation
  import opened FileSystemRemoval
  import opened FileSystemRuns
  import opened FileSystemTree
  import opened FileSystemLimits

  // ---- names ----

  /** Entry `k` is the first that carries `name`. */
  predicate FirstNamed(d: Dentry, name: seq<char>, k: int)
    requires Shaped(d)
  {
    && 0 <= k < d.numEntry && CStr(d.slots[k].name) == name
    && forall j :: 0 <= j < k ==> CStr(d.slots[j].name) != name
  }

  /** The inodes of all entries, dot entries included, in order. */
  function Column(d: Dentry): seq<nat> {
    Named(d, 0)
  }

  lemma FirstNamedIsFound(d: Dentry, name: seq<char>)
    requires Shaped(d)
    ensures Search(d, name) >= 0 <==> exists k :: FirstNamed(d, name, k)
    ensures forall k :: FirstNamed(d, name, k) ==> FindFrom(d, name, 0) == k && Search(d, name) == d.slots[k].inode
  {
    hide CStr;
    var r := FindFrom(d, name, 0);
    if r < d.numEntry { assert FirstNamed(d, name, r); }
    forall k | FirstNamed(d, name, k) ensures FindFrom(d, name, 0) == k && Search(d, name) == d.slots[k].inode {
      FoundAt(d, name, k);
    }
  }

  /**
   After an entry has been added, old names lead where they did, and the new one to the new inode
   unless it was taken.
   */
  lemma AddedNames(d: Dentry, name: seq<char>, i: nat, x: seq<char>)
    requires Shaped(d) && d.numEntry < MAX_DIR_ENTRY && ValidName(name)
    ensures Search(AddEntry(d, name, i), x) ==
              if Search(d, x) >= 0 then Search(d, x) else if x == name then i else -1
  {
    hide CStr, FindFrom, Written, Search;
    var n, e := d.numEntry, AddEntry(d, name, i);
    AddedSlots(d, name, i);
    CStrWritten(d.slots[n].name, name);
    AbsentIff(d, x);
    AbsentIff(e, x);
    if Search(d, x) >= 0 {
      FirstNamedIsFound(d, x);
      var k :| FirstNamed(d, x, k);
      FoundAt(e, x, k);
    } else if x == name {
      FoundAt(e, x, n);
    }
  }

  lemma AddedSlots(d: Dentry, name: seq<char>, i: nat)
    requires Shaped(d) && d.numEntry < MAX_DIR_ENTRY && ValidName(name)
    ensures var e, n := AddEntry(d, name, i), d.numEntry;
            && e.numEntry == n + 1 && e.slots[n] == Entry(Written(d.slots[n].name, name), i)
            && forall k :: 0 <= k < n ==> e.slots[k] == d.slots[k]
  {
  }

  /** What taking entry `k` out leaves: the slots before it, and the column of inodes without it. */
  lemma ColumnCut(d: Dentry, k: nat)
    requires Shaped(d) && k < d.numEntry
    ensures var e := RemoveEntry(d, k);
            && e.numEntry == d.numEntry - 1 && e.slots[..k] == d.slots[..k]
            && |Column(d)| == d.numEntry && Column(e) == Column(d)[..k] + Column(d)[k + 1..]
  {
    NamedRemoved(d, k, 0);
  }

  // ---- rm ----

  /**
   Rm succeeds if and only if the first entry of that name names a file, whatever its link count, and
   then it takes out that very entry: those before it stay as they are, and the column of inodes has
   exactly that position cut out.
   */
  lemma {:induction false} RemoveTakesTheName(s: Fs, g: Tree, name: seq<char>)
    requires InvBy(s, g)
    ensures Shaped(s.cur)
    ensures Remove(s, name).1 == Ok <==> exists k :: FirstNamed(s.cur, name, k) && LiveFile(s, s.cur.slots[k].inode)
    ensures forall k :: FirstNamed(s.cur, name, k) && LiveFile(s, s.cur.slots[k].inode) ==>
              var e := Remove(s, name).0.cur;
              && e.numEntry == s.cur.numEntry - 1 && |Column(s.cur)| == s.cur.numEntry && Shaped(e)
              && e.slots[..k] == s.cur.slots[..k] && Column(e) == Column(s.cur)[..k] + Column(s.cur)[k + 1..]
  {
    hide InvBy, CStr, RemoveEntry, PutAll, Freed, Owned, FindFrom, Search, Column;
    FoundFileIsRemovable(s, g, name);
    FirstNamedIsFound(s.cur, name);
    forall k | FirstNamed(s.cur, name, k) ensures InodeAt(s, s.cur.slots[k].inode).kind == File <==>
      LiveFile(s, s.cur.slots[k].inode) {
      FoundIsSomething(s, g, name);
      KindTells(s, s.cur.slots[k].inode);
    }
    forall k | FirstNamed(s.cur, name, k) {
      ColumnCut(s.cur, k);
    }
  }

  lemma KindTells(s: Fs, i: nat)
    requires LiveFile(s, i) || LiveDir(s, i)
    ensures (InodeAt(s, i).kind == File <==> LiveFile(s, i)) && (InodeAt(s, i).kind == Directory <==> LiveDir(s, i))
  {
  }

  // ---- ln ----

  /** Ln succeeds if and only if its source is there and the directory has room. */
  lemma LinkSucceedsIff(s: Fs, src: seq<char>, dest: seq<char>)
    requires Shaped(s.cur) && ValidName(dest)
    ensures Link(s, src, dest).1 == Ok <==> (exists k :: FirstNamed(s.cur, src, k)) && s.cur.numEntry < MAX_DIR_ENTRY
  {
    hide Search, AddLink;
    FirstNamedIsFound(s.cur, src);
  }

  /**
   A link leads where its source does: a new name to the source's inode, every old name where it led,
   and every other name nowhere; and cat prints of a file through either name what it printed before.
   */
  lemma {:induction false} LinkNamesSource(s: Fs, g: Tree, src: seq<char>, dest: seq<char>, x: seq<char>)
    requires InvBy(s, g) && Shaped(s.cur) && ValidName(dest) && Link(s, src, dest).1 == Ok
    ensures var t, i := Link(s, src, dest).0, Search(s.cur, src);
            && i >= 0 && Shaped(t.cur)
            && Search(t.cur, x) == (if Search(s.cur, x) >= 0 then Search(s.cur, x) else if x == dest then i else -1)
            && Search(t.cur, src) == i && Cat(t, i) == Cat(s, i)
            && InodeAt(t, i).linkCount == InodeAt(s, i).linkCount + 1
  {
    hide InvBy, Search, AddEntry, Contents, CatBlocks, CStr;
    FoundIsSomething(s, g, src);
    AddedNames(s.cur, dest, Search(s.cur, src), x);
    AddedNames(s.cur, dest, Search(s.cur, src), src);
    InodesSized(s, g);
    SameContents(s.disk, InodeAt(s, Search(s.cur, src)), InodeAt(s, Search(s.cur, src)).linkCount + 1);
  }

  lemma SameContents(disk: seq<Block>, n: Inode, links: int)
    ensures Contents(disk, n.(linkCount := links)) == Contents(disk, n)
  {
    hide PointersAt, BytesAt;
    assert DataBlocks(disk, n.(linkCount := links)) == DataBlocks(disk, n);
  }

  // ---- cd ----

  /** Cd succeeds if and only if the name is there and leads to a directory. */
  lemma {:induction false} ChangeDirSucceedsIff(s: Fs, g: Tree, name: seq<char>)
    requires InvBy(s, g)
    ensures Shaped(s.cur)
    ensures ChangeDir(s, name).1 == Ok <==> exists k :: FirstNamed(s.cur, name, k) && LiveDir(s, s.cur.slots[k].inode)
  {
    hide InvBy, Search, CStr, ListingAt;
    HereDots(s, g);
    FirstNamedIsFound(s.cur, name);
    if Search(s.cur, name) >= 0 {
      var i := Search(s.cur, name);
      FoundIsSomething(s, g, name);
      KindTells(s, i);
      if LiveDir(s, i) { HereIsOnly(s, g, i); }
      var k :| FirstNamed(s.cur, name, k);
      assert s.cur.slots[k].inode == i;
    }
  }

  /** Cd to ".." succeeds everywhere but in the root, and leads to the directory that names the current one. */
  lemma {:induction false} ChangeToParent(s: Fs, g: Tree)
    requires InvBy(s, g)
    ensures Shaped(s.cur)
    ensures ChangeDir(s, DOTDOT).1 == Ok <==> g.here != ROOT
    ensures g.here != ROOT ==>
              var t := ChangeDir(s, DOTDOT).0;
              && InvBy(t, g.(here := ParentOf(g, g.here))) && Holds(s, ParentOf(g, g.here), g.here)
              && t.inodes == s.inodes && t.inodeMap == s.inodeMap
              && t.cur == Dir(s, ParentOf(g, g.here)) && t.curBlock == DirBlock(InodeAt(s, ParentOf(g, g.here)))
  {
    hide InvBy, Search, CStr, ListingAt, Dir, Holds, LiveDir, DirBlock;
    HereDots(s, g);
    ChangeDirSucceedsIff(s, g, DOTDOT);
    FirstNamedIsFound(s.cur, DOTDOT);
    if g.here != ROOT {
      assert FirstNamed(s.cur, DOTDOT, 1);
      ParentIsDir(s, g);
      HereHasDepth(s, g);
      IsLive(s, g.here);
      AboveNames(s, g, g.here);
      ChangeDirKeepsInv(s, g, DOTDOT);
      ChangeDirKeepsListings(s, g, DOTDOT);
    } else {
      forall k | FirstNamed(s.cur, DOTDOT, k) ensures !LiveDir(s, s.cur.slots[k].inode) {
        RootHasNoParent(s, g, k);
      }
    }
  }

  lemma IsLive(s: Fs, d: nat)
    requires LiveDir(s, d)
    ensures Live(s, d)
  {
  }

  lemma RootHasNoParent(s: Fs, g: Tree, k: nat)
    requires InvBy(s, g) && g.here == ROOT && Shaped(s.cur) && FirstNamed(s.cur, DOTDOT, k)
    ensures !LiveDir(s, s.cur.slots[k].inode)
  {
    hide OwnersRight, BlocksRight, FilesRight, DirsRight, LinksRight, CStr, Sized;
    HereDots(s, g);
    assert EntryRight(s, g, s.cur.slots[k], ROOT);
  }

  /** `mkdir d; cd d; cd ..` leads back to where it started, and the new directory is there, empty. */
  lemma {:induction false} MakeDirAndBack(s: Fs, g: Tree, name: seq<char>, junk: seq<Entry>)
    requires InvBy(s, g) && ValidName(name) && Shaped(Dentry(0, junk)) && s.freeBlocks >= 1
    ensures Shaped(s.cur)
    ensures var (t, r) := MakeDir(s, name, junk);
            r == Ok ==>
              && Shaped(t.cur)
              && var (u, p) := ChangeDir(t, name);
                 && p == Ok && Shaped(u.cur) && Column(u.cur) == [Search(t.cur, name), g.here]
                 && var (v, q) := ChangeDir(u, DOTDOT);
                    && q == Ok && v.cur == t.cur && v.curBlock == s.curBlock
                    && Search(v.cur, name) == Search(t.cur, name) == FirstFree(s.inodeMap, 0)
                    && LiveDir(v, Search(v.cur, name))
  {
    hide InvBy, MakeDir, ChangeDir, Grown, NewDirRight, Search, FirstFree, Dir, CStr, LiveDir, Column, Holds, DirBlock;
    MakeDirGrows(s, g, name, junk);
    var (t, r) := MakeDir(s, name, junk);
    if r == Ok {
      var i, b := FirstFree(s.inodeMap, 0), FirstFree(s.blockMap, 0);
      var h := NewDirEntered(s, g, t, i, b, name, junk);
      var u := ChangeDir(t, name).0;
      ChangeToParent(u, h);
      BackWhereItWas(s, g, t, i, [b], name, u);
      SameLive(u, ChangeDir(u, DOTDOT).0, i);
    }
  }

  lemma SameLive(s: Fs, t: Fs, d: nat)
    requires t.inodes == s.inodes && t.inodeMap == s.inodeMap && LiveDir(s, d)
    ensures LiveDir(t, d)
  {
  }

  /** Cd into the new directory. */
  lemma NewDirEntered(s: Fs, g: Tree, t: Fs, i: nat, b: int, name: seq<char>, junk: seq<Entry>) returns (h: Tree)
    requires InvBy(s, g) && Shaped(s.cur) && ValidName(name) && Shaped(Dentry(0, junk)) &&
             (t, Ok) == MakeDir(s, name, junk)
    requires Grown(s, t, i, [b], name) && t.inodes[i].kind == Directory && NewDirRight(t, i, g.here)
    ensures Shaped(t.cur) && Search(t.cur, name) == i
    ensures var (u, p) := ChangeDir(t, name);
            && p == Ok && InvBy(u, h) && h.here == i && i != ROOT && ParentOf(h, i) == g.here
            && Shaped(u.cur) && Column(u.cur) == [i, g.here] && LiveDir(u, i) && LiveDir(u, g.here)
            && LiveDir(t, g.here) && Dir(u, g.here) == Dir(t, g.here) && u.inodes == t.inodes
  {
    hide InvBy, NewDirRight, Search, FirstFree, Dir, CStr, AddEntry, ChangeDir, FindFrom, Grown;
    FreshForMakeDir(s, name, junk);
    NotTheRoot(s, g, t, i, [b], name);
    AddedNames(s.cur, name, i, name);
    GrownKeepsInv(s, g, t, i, [b], name);
    h := Grow(g, i, [b]);
    HereDots(t, h);
    FirstNamedIsFound(t.cur, name);
    ChangeDirSucceedsIff(t, h, name);
    ChangeDirKeepsInv(t, h, name);
    ChangeDirKeepsListings(t, h, name);
    NewColumn(t, i, g.here);
    h := h.(here := i);
    HereDots(ChangeDir(t, name).0, h);
    OldListing(s, g, t, i, [b], name, g.here);
  }

  lemma FreshForMakeDir(s: Fs, name: seq<char>, junk: seq<Entry>)
    requires Shaped(s.cur) && ValidName(name) && Shaped(Dentry(0, junk)) && MakeDir(s, name, junk).1 == Ok
    ensures Search(s.cur, name) < 0 && s.cur.numEntry < MAX_DIR_ENTRY
  {
  }

  lemma NotTheRoot(s: Fs, g: Tree, t: Fs, i: nat, bs: seq<int>, name: seq<char>)
    requires InvBy(s, g) && Grown(s, t, i, bs, name)
    ensures i != ROOT && LiveDir(s, g.here) && t.cur == AddEntry(s.cur, name, i) && t.curBlock == s.curBlock
    ensures t.inodes[i].kind == Directory ==> LiveDir(t, i)
  {
    hide OwnersRight, BlocksRight, FilesRight, DirsRight, LinksRight, Owned, PutAll;
  }

  lemma NewColumn(t: Fs, i: nat, parent: nat)
    requires NewDirRight(t, i, parent) && i != ROOT
    ensures Column(Dir(t, i)) == [i, parent]
  {
    hide CStr;
  }

  lemma BackWhereItWas(s: Fs, g: Tree, t: Fs, i: nat, bs: seq<int>, name: seq<char>, u: Fs)
    requires InvBy(s, g) && Grown(s, t, i, bs, name) && u.inodes == t.inodes
    ensures DirBlock(InodeAt(u, g.here)) == s.curBlock && Dir(t, g.here) == t.cur
  {
    hide OwnersRight, BlocksRight, FilesRight, DirsRight, LinksRight, Owned, PutAll, CStr;
    OldListing(s, g, t, i, bs, name, g.here);
    OldInode(s, g, t, i, bs, name, g.here);
  }

  // ---- create, cp, mkdir and rmdir ----

  /**
   Create succeeds if and only if the size is allowed, the name is free, and there is an entry, an
   inode and every block.
   */
  lemma {:induction false} CreateSucceedsIff(s: Fs, g: Tree, name: seq<char>, size: int, buf: seq<char>)
    requires InvBy(s, g) && ValidName(name) && (0 < size <= MAX_SIZE ==> Generated(buf, size))
    ensures Shaped(s.cur) && (0 < size <= MAX_SIZE ==> |buf| == BlocksFor(size) * BLOCK_SIZE)
    ensures Create(s, name, size, buf).1 == Ok <==>
              && 0 < size <= MAX_SIZE && (forall k :: !FirstNamed(s.cur, name, k)) && s.cur.numEntry < MAX_DIR_ENTRY
              && CountFalse(s.inodeMap) > 0 && Needed(size) <= CountFalse(s.blockMap)
  {
    hide InvBy, Search, Install, FirstFree, FirstNamed, Generated;
    HereDots(s, g);
    CountsAreCached(s);
    FirstFreeSucceeds(s.inodeMap);
    FirstNamedIsFound(s.cur, name);
    if 0 < size <= MAX_SIZE { GeneratedFills(buf, size); }
  }

  lemma GeneratedFills(buf: seq<char>, size: nat)
    requires Generated(buf, size)
    ensures |buf| == BlocksFor(size) * BLOCK_SIZE
  {
  }

  /**
   Cp succeeds if and only if its source is a file and there is an entry, an inode and as many blocks
   as the source takes.
   */
  lemma {:induction false} CopySucceedsIff(s: Fs, g: Tree, src: seq<char>, dest: seq<char>)
    requires InvBy(s, g) && ValidName(dest)
    ensures Shaped(s.cur)
    ensures var j := Search(s.cur, src); InodeAt(s, j).kind == File && j >= 0 ==> FileShaped(s.disk, InodeAt(s, j))
    ensures Copy(s, src, dest).1 == Ok <==>
              exists k :: FirstNamed(s.cur, src, k) && CopyFits(s, s.cur.slots[k].inode)
  {
    hide InvBy, Search, Install, FirstFree, FileShaped, Contents;
    CopyKeepsInv(s, g, src, dest);
    CountsAreCached(s);
    FirstFreeSucceeds(s.inodeMap);
    FirstNamedIsFound(s.cur, src);
    var i := Search(s.cur, src);
    if i >= 0 {
      FoundIsSomething(s, g, src);
      KindTells(s, i);
      if LiveFile(s, i) { FileSize(s, i); }
      var k :| FirstNamed(s.cur, src, k);
      assert s.cur.slots[k].inode == i;
    }
  }

  /** There is room for a copy of file `i`. */
  ghost predicate CopyFits(s: Fs, i: nat) {
    && LiveFile(s, i) && s.cur.numEntry < MAX_DIR_ENTRY
    && CountFalse(s.inodeMap) > 0 && InodeAt(s, i).size > 0 && Needed(InodeAt(s, i).size) <= CountFalse(s.blockMap)
  }

  lemma FileSize(s: Fs, i: nat)
    requires LiveFile(s, i) && FileShaped(s.disk, InodeAt(s, i))
    ensures InodeAt(s, i).size > 0
  {
  }

  /**
   A file created or copied is found under its name, unless an older entry has it, and every other
   name leads where it did.
   */
  lemma {:induction false} NewFileIsNamed(s: Fs, g: Tree, c: Command, name: seq<char>, x: seq<char>)
    requires InvBy(s, g) && Plain(s, c) && CopyReady(s, c) && Effect(s, c).1 == Ok
    requires match c
             case CreateFile(n, _, _) => name == n
             case CopyFile(_, n) => name == n
             case MakeDirectory(n, _) => name == n && s.freeBlocks >= 1
             case _ => false
    ensures var t, i := Effect(s, c).0, FirstFree(s.inodeMap, 0);
            && i >= 0 && !Live(s, i) && Live(t, i) && Shaped(t.cur)
            && Search(t.cur, x) == (if Search(s.cur, x) >= 0 then Search(s.cur, x) else if x == name then i else -1)
  {
    hide InvBy, Create, Copy, MakeDir, Search, Grown, NewDirRight, Alloc, Contents, CStr;
    var t, i := Effect(s, c).0, FirstFree(s.inodeMap, 0);
    match c {
      case CreateFile(n, size, buf) =>
        CreateKeepsInv(s, g, n, size, buf);
        GrownNames(s, t, i, Alloc(s.blockMap, Needed(size)), n, x);
      case CopyFile(src, n) =>
        CopyKeepsInv(s, g, src, n);
        GrownNames(s, t, i, Alloc(s.blockMap, Needed(InodeAt(s, Search(s.cur, src)).size)), n, x);
      case MakeDirectory(n, junk) =>
        MakeDirGrows(s, g, n, junk);
        GrownNames(s, t, i, [FirstFree(s.blockMap, 0)], n, x);
    }
  }

  lemma GrownNames(s: Fs, t: Fs, i: nat, bs: seq<int>, name: seq<char>, x: seq<char>)
    requires Grown(s, t, i, bs, name)
    ensures Shaped(s.cur) && Shaped(t.cur) && !Live(s, i) && Live(t, i)
    ensures Search(t.cur, x) == if Search(s.cur, x) >= 0 then Search(s.cur, x) else if x == name then i else -1
  {
    hide Owned, PutAll, CStr, Search;
    AddedNames(s.cur, name, i, x);
  }

  /**
   Mkdir succeeds if and only if the name is free and no dot name, and there is an entry and an
   inode, block or no block.
   */
  lemma {:induction false} MakeDirSucceedsIff(s: Fs, g: Tree, name: seq<char>, junk: seq<Entry>)
    requires InvBy(s, g) && ValidName(name) && Shaped(Dentry(0, junk))
    ensures Shaped(s.cur)
    ensures MakeDir(s, name, junk).1 == Ok <==>
              && name != DOT && name != DOTDOT && (forall k :: !FirstNamed(s.cur, name, k))
              && s.cur.numEntry < MAX_DIR_ENTRY && CountFalse(s.inodeMap) > 0
  {
    hide InvBy, Search, FirstFree, FirstNamed, CStr;
    HereDots(s, g);
    CountsAreCached(s);
    FirstFreeSucceeds(s.inodeMap);
    FirstNamedIsFound(s.cur, name);
    FoundAt(s.cur, DOT, 0);
  }

  /** A directory other than the root has two entries exactly when it holds nothing. */
  lemma EmptyIff(s: Fs, g: Tree, d: nat)
    requires InvBy(s, g) && LiveDir(s, d) && d != ROOT
    ensures Dir(s, d).numEntry == 2 <==> forall x :: !Holds(s, d, x)
  {
    hide InvBy, Dir, CStr;
    DirectoriesLead(s, g, d);
    var l := Dir(s, d);
    var xs := Named(l, Dots(d));
    if l.numEntry > 2 { assert xs[0] in xs && Holds(s, d, xs[0]); }
  }

  /**
   Rmdir succeeds if and only if the name is no dot name and leads to a directory that holds nothing;
   then it takes out that very entry.
   */
  lemma {:induction false} RemoveDirTakesTheName(s: Fs, g: Tree, name: seq<char>)
    requires InvBy(s, g)
    ensures Shaped(s.cur)
    ensures RemoveDir(s, name).1 == Ok <==>
              && name != DOT && name != DOTDOT
              && exists k :: FirstNamed(s.cur, name, k) && EmptyDir(s, s.cur.slots[k].inode)
    ensures forall k :: RemoveDir(s, name).1 == Ok && FirstNamed(s.cur, name, k) ==>
              var e := RemoveDir(s, name).0.cur;
              && e.numEntry == s.cur.numEntry - 1 && |Column(s.cur)| == s.cur.numEntry && Shaped(e)
              && e.slots[..k] == s.cur.slots[..k] && Column(e) == Column(s.cur)[..k] + Column(s.cur)[k + 1..]
  {
    hide InvBy, CStr, RemoveEntry, PutAll, Freed, Owned, FindFrom, Search, Column, Dir, ListingAt, EmptyDir, Removable;
    HereDots(s, g);
    FirstNamedIsFound(s.cur, name);
    if name != DOT && name != DOTDOT {
      FoundDirIsRemovable(s, g, name);
      if Search(s.cur, name) >= 0 {
        var k :| FirstNamed(s.cur, name, k);
        FoundIsSomething(s, g, name);
        KindTells(s, s.cur.slots[k].inode);
        PlainIsNotRoot(s, g, name, k);
        EmptyDirIff(s, g, s.cur.slots[k].inode);
      }
    }
    forall k | FirstNamed(s.cur, name, k) {
      ColumnCut(s.cur, k);
    }
  }

  ghost predicate EmptyDir(s: Fs, d: nat) {
    LiveDir(s, d) && forall x :: !Holds(s, d, x)
  }

  lemma EmptyDirIff(s: Fs, g: Tree, d: nat)
    requires InvBy(s, g) && d != ROOT
    ensures EmptyDir(s, d) <==> LiveDir(s, d) && Dir(s, d).numEntry == 2
  {
    hide InvBy, Dir, LiveDir, Holds;
    if LiveDir(s, d) { EmptyIff(s, g, d); }
  }

  lemma PlainIsNotRoot(s: Fs, g: Tree, name: seq<char>, k: int)
    requires InvBy(s, g) && Shaped(s.cur) && FirstNamed(s.cur, name, k) && name != DOT && name != DOTDOT
    ensures s.cur.slots[k].inode != ROOT
  {
    hide OwnersRight, BlocksRight, FilesRight, DirsRight, LinksRight, CStr, Sized;
    HereDots(s, g);
    assert EntryRight(s, g, s.cur.slots[k], g.here);
  }
}
