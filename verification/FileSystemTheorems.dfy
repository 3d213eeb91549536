/** What the invariant and the commands amount to for a user of the file system. */
module FileSystemTheorems {
  import opened FileSystemModel
  import opened FileSystemInvariant
  import opened FileSystemGrowth
  import opened FileSystemCreation
  import opened FileSystemRemoval
  import opened FileSystemRuns

  // ---- what a command leaves alone ----

  /** File `f` has the same size, blocks and contents in both states. */
  ghost predicate SameFile(s: Fs, t: Fs, f: nat) {
    && LiveFile(t, f) && InodeAt(t, f).size == InodeAt(s, f).size
    && DataBlocks(t.disk, InodeAt(t, f)) == DataBlocks(s.disk, InodeAt(s, f))
    && Contents(t.disk, InodeAt(t, f)) == Contents(s.disk, InodeAt(s, f))
  }

  /**
   The files and directories that are there before and after: files keep their contents, and
   directories other than `here` theirs.
   */
  ghost predicate OthersKept(s: Fs, t: Fs, here: nat) {
    && (forall f :: LiveFile(s, f) && Live(t, f) ==> SameFile(s, t, f))
    && (forall d :: LiveDir(s, d) && Live(t, d) ==> LiveDir(t, d) && (d != here ==> Dir(t, d) == Dir(s, d)))
  }

  /** The current directory, and the directory of everything that was there, so every ancestor, is still there. */
  ghost predicate AncestorsKept(s: Fs, g: Tree, t: Fs) {
    && LiveDir(t, g.here)
    && (forall j :: Live(s, j) && j != ROOT ==> j in g.up && LiveDir(t, g.up[j]))
  }

  lemma GrownKeepsOthers(s: Fs, g: Tree, t: Fs, i: nat, bs: seq<int>, name: seq<char>)
    requires InvBy(s, g) && Grown(s, t, i, bs, name)
    ensures OthersKept(s, t, g.here) && AncestorsKept(s, g, t)
  {
    hide OwnersRight, BlocksRight, FilesRight, DirsRight, Sized, Contents, DataBlocks, Grown, Dir;
    forall j | Live(s, j) ensures LiveFile(s, j) ==> SameFile(s, t, j) {
      OldInode(s, g, t, i, bs, name, j);
    }
    forall d | LiveDir(s, d) ensures LiveDir(t, d) && (d != g.here ==> Dir(t, d) == Dir(s, d)) {
      OldListing(s, g, t, i, bs, name, d);
    }
    forall j | Live(s, j) && j != ROOT ensures j in g.up && LiveDir(t, g.up[j]) {
      assert LinkRight(s, g, j);
    }
  }

  lemma UnlinkKeepsOthers(s: Fs, g: Tree, i: nat, k: nat)
    requires Removable(s, g, i, k) && Shaped(s.cur)
    ensures OthersKept(s, Unlink(s, i, k), g.here) && AncestorsKept(s, g, Unlink(s, i, k))
  {
    hide OwnersRight, BlocksRight, FilesRight, DirsRight, Sized, Unlink, RemoveEntry, Dir;
    RemovableFacts(s, g, i, k);
    UnlinkMaps(s, g, i, k);
    var t := Unlink(s, i, k);
    forall f | LiveFile(s, f) && Live(t, f) ensures SameFile(s, t, f) {
      assert f == i || InodeAt(t, f) == InodeAt(s, f);
    }
    forall d | LiveDir(s, d) && Live(t, d) ensures LiveDir(t, d) && (d != g.here ==> Dir(t, d) == Dir(s, d)) {
      UnlinkListing(s, g, i, k, d);
    }
    forall j | Live(s, j) && j != ROOT ensures j in g.up && LiveDir(t, g.up[j]) {
      assert LinkRight(s, g, j);
      NothingBelow(s, g, i, k, j);
      UnlinkListing(s, g, i, k, g.up[j]);
    }
    UnlinkListing(s, g, i, k, g.here);
  }

  lemma LinkKeepsOthers(s: Fs, g: Tree, i: nat, dest: seq<char>)
    requires Nameable(s, g, i, dest) && Shaped(s.cur)
    ensures OthersKept(s, AddLink(s, i, dest), g.here) && AncestorsKept(s, g, AddLink(s, i, dest))
  {
    hide OwnersRight, BlocksRight, FilesRight, DirsRight, Sized, RootRight, HereRight, AddLink, AddEntry, Dir;
    LinkMaps(s, g, i, dest);
    HereHasDepth(s, g);
    var t := AddLink(s, i, dest);
    forall f | LiveFile(s, f) && Live(t, f) ensures SameFile(s, t, f) {
      assert f == i || InodeAt(t, f) == InodeAt(s, f);
    }
    forall d | LiveDir(s, d) ensures LiveDir(t, d) && (d != g.here ==> Dir(t, d) == Dir(s, d)) {
      LinkListing(s, g, i, dest, d);
    }
    forall j | Live(s, j) && j != ROOT ensures j in g.up && LiveDir(t, g.up[j]) {
      assert LinkRight(s, g, j);
    }
  }

  /** Mkdir on a full disk writes no block and no live inode. */
  lemma StuckDirMaps(s: Fs, g: Tree, name: seq<char>, junk: seq<Entry>)
    requires InvBy(s, g) && Shaped(s.cur) && ValidName(name) && Shaped(Dentry(0, junk)) && s.freeBlocks < 1
    ensures var (t, r) := MakeDir(s, name, junk);
            r == Ok ==> t.disk == s.disk && (forall j :: Live(s, j) ==> Live(t, j) && InodeAt(t, j) == InodeAt(s, j))
  {
    hide OwnersRight, BlocksRight, FilesRight, DirsRight, LinksRight, AddEntry, CStr;
    FirstFreeSucceeds(s.blockMap);
  }

  /** It spoils its own entry, but nobody else's. */
  lemma StuckDirKeepsOthers(s: Fs, g: Tree, name: seq<char>, junk: seq<Entry>)
    requires InvBy(s, g) && Shaped(s.cur) && ValidName(name) && Shaped(Dentry(0, junk)) && s.freeBlocks < 1
    ensures var (t, r) := MakeDir(s, name, junk);
            r == Ok ==> OthersKept(s, t, g.here) && AncestorsKept(s, g, t)
  {
    hide OwnersRight, BlocksRight, FilesRight, DirsRight, Sized, MakeDir, Dir, CStr;
    var (t, r) := MakeDir(s, name, junk);
    if r == Ok {
      StuckDirMaps(s, g, name, junk);
      forall d | LiveDir(s, d) ensures LiveDir(t, d) && (d != g.here ==> Dir(t, d) == Dir(s, d)) {
        StuckDirListing(s, g, name, junk, d);
      }
      forall j | Live(s, j) && j != ROOT ensures j in g.up && LiveDir(t, g.up[j]) {
        assert LinkRight(s, g, j);
      }
    }
  }

  lemma StuckDirListing(s: Fs, g: Tree, name: seq<char>, junk: seq<Entry>, d: nat)
    requires InvBy(s, g) && Shaped(s.cur) && ValidName(name) && Shaped(Dentry(0, junk)) && s.freeBlocks < 1
    requires MakeDir(s, name, junk).1 == Ok && LiveDir(s, d)
    ensures var t := MakeDir(s, name, junk).0;
            LiveDir(t, d) && (d != g.here ==> Dir(t, d) == Dir(s, d))
  {
    hide OwnersRight, BlocksRight, FilesRight, DirsRight, LinksRight, AddEntry, CStr;
    FirstFreeSucceeds(s.blockMap);
    HereIsOnly(s, g, d);
  }

  /** A mkdir that reports an error has changed nothing, free block or not. */
  lemma MakeDirFails(s: Fs, g: Tree, name: seq<char>, junk: seq<Entry>)
    requires InvBy(s, g) && Shaped(s.cur) && ValidName(name) && Shaped(Dentry(0, junk))
    ensures MakeDir(s, name, junk).1 != Ok ==> MakeDir(s, name, junk).0 == s
  {
    hide OwnersRight, BlocksRight, FilesRight, DirsRight, LinksRight, AddEntry, CStr, EntriesRight;
    HereDots(s, g);
    FirstFreeSucceeds(s.inodeMap);
    assert FindFrom(s.cur, DOT, 0) == 0;
  }

  lemma EnteredKeepsOthers(s: Fs, g: Tree, i: nat, t: Fs)
    requires Entered(s, g, i, t)
    ensures OthersKept(s, t, g.here) && AncestorsKept(s, g, t)
  {
    hide OwnersRight, BlocksRight, FilesRight, DirsRight, Sized, Contents, DataBlocks;
    forall f | LiveFile(s, f) ensures SameFile(s, t, f) {
      EnteredInode(s, g, i, t, f);
    }
    forall j | Live(s, j) && j != ROOT ensures j in g.up && LiveDir(t, g.up[j]) {
      assert LinkRight(s, g, j);
    }
  }

  lemma NothingHappened(s: Fs, g: Tree)
    requires InvBy(s, g)
    ensures OthersKept(s, s, g.here) && AncestorsKept(s, g, s)
  {
    hide OwnersRight, BlocksRight, FilesRight, DirsRight, Sized, Contents, DataBlocks;
    forall j | Live(s, j) && j != ROOT ensures j in g.up && LiveDir(s, g.up[j]) {
      assert LinkRight(s, g, j);
    }
  }

  /**
   Isolation: a command changes the entries of no directory but the current one, changes the
   contents of no file that survives it, and frees neither the current directory nor an ancestor.
   */
  lemma {:induction false} CommandKeepsOthers(s: Fs, g: Tree, c: Command)
    requires InvBy(s, g) && Plain(s, c) && CopyReady(s, c)
    ensures OthersKept(s, Effect(s, c).0, g.here) && AncestorsKept(s, g, Effect(s, c).0)
  {
    hide InvBy, OthersKept, AncestorsKept, Create, Copy, Remove, Link, MakeDir, RemoveDir, ChangeDir, Grown,
         NewDirRight, Unlink, AddLink, Alloc;
    NothingHappened(s, g);
    var (t, r) := Effect(s, c);
    if r == Ok {
      match c {
        case CreateFile(name, size, buf) =>
          CreateKeepsInv(s, g, name, size, buf);
          GrownKeepsOthers(s, g, t, FirstFree(s.inodeMap, 0), Alloc(s.blockMap, Needed(size)), name);
        case CatFile(name) =>
        case RemoveFile(name) => RemoveFrame(s, g, name);
        case HardLink(src, dest) => LinkFrame(s, g, src, dest);
        case CopyFile(src, dest) =>
          CopyKeepsInv(s, g, src, dest);
          GrownKeepsOthers(s, g, t, FirstFree(s.inodeMap, 0),
            Alloc(s.blockMap, Needed(InodeAt(s, Search(s.cur, src)).size)), dest);
        case MakeDirectory(name, junk) =>
          if s.freeBlocks >= 1 {
            MakeDirGrows(s, g, name, junk);
            GrownKeepsOthers(s, g, t, FirstFree(s.inodeMap, 0), [FirstFree(s.blockMap, 0)], name);
          } else {
            StuckDirKeepsOthers(s, g, name, junk);
          }
        case RemoveDirectory(name) => RemoveDirFrame(s, g, name);
        case ChangeDirectory(name) =>
          ChangeDirKeepsListings(s, g, name);
          EnteredKeepsOthers(s, g, Search(s.cur, name), t);
      }
    } else {
      FailureKeepsState(s, g, c);
    }
  }

  lemma RemoveFrame(s: Fs, g: Tree, name: seq<char>)
    requires InvBy(s, g) && Shaped(s.cur)
    ensures var (t, r) := Remove(s, name); r == Ok ==> OthersKept(s, t, g.here) && AncestorsKept(s, g, t)
  {
    hide InvBy, OthersKept, AncestorsKept, Unlink;
    FoundFileIsRemovable(s, g, name);
    if Remove(s, name).1 == Ok {
      UnlinkKeepsOthers(s, g, Search(s.cur, name), FindFrom(s.cur, name, 0));
    }
  }

  lemma RemoveDirFrame(s: Fs, g: Tree, name: seq<char>)
    requires InvBy(s, g) && Shaped(s.cur)
    ensures var (t, r) := RemoveDir(s, name); r == Ok ==> OthersKept(s, t, g.here) && AncestorsKept(s, g, t)
  {
    hide InvBy, OthersKept, AncestorsKept, Unlink;
    if name != DOT && name != DOTDOT {
      FoundDirIsRemovable(s, g, name);
      if RemoveDir(s, name).1 == Ok {
        UnlinkKeepsOthers(s, g, Search(s.cur, name), FindFrom(s.cur, name, 0));
      }
    }
  }

  lemma LinkFrame(s: Fs, g: Tree, src: seq<char>, dest: seq<char>)
    requires InvBy(s, g) && ValidName(dest) && Shaped(s.cur)
    ensures var (t, r) := Link(s, src, dest); r == Ok ==> OthersKept(s, t, g.here) && AncestorsKept(s, g, t)
  {
    hide OwnersRight, BlocksRight, FilesRight, DirsRight, LinksRight, Sized, OthersKept, AncestorsKept, AddLink, CStr;
    if Link(s, src, dest).1 == Ok {
      FoundIsSomething(s, g, src);
      LinkKeepsOthers(s, g, Search(s.cur, src), dest);
    }
  }

  /** A command that reports an error has changed nothing. */
  lemma FailureKeepsState(s: Fs, g: Tree, c: Command)
    requires InvBy(s, g) && Plain(s, c) && CopyReady(s, c)
    ensures Effect(s, c).1 != Ok ==> Effect(s, c).0 == s
  {
    hide InvBy, Install, Unlink, AddLink, Grown, NewDirRight;
    if c.MakeDirectory? {
      MakeDirFails(s, g, c.name, c.junk);
    }
  }
}
