/** Whole command sequences from a freshly formatted disk, and what each command leaves alone. */
module FileSystemRuns {
  import opened FileSystemModel
  import opened FileSystemInvariant
  import opened FileSystemGrowth
  import opened FileSystemCreation
  import opened FileSystemRemoval

  // ---- cd keeps the invariant ----

  /** The blocks in front of the data, which no inode owns. */
  function Header(): (bs: seq<int>)
    ensures |bs| == RESERVED && forall b :: 0 <= b < RESERVED ==> bs[b] == b
  {
    seq(RESERVED, b => b)
  }

  lemma InHeader(b: int)
    ensures b in Header() <==> 0 <= b < RESERVED
  {
    if 0 <= b < RESERVED { assert Header()[b] == b; }
  }

  /** Directory `i` has become the current one; only its predecessor's block and the header have been written. */
  ghost predicate Entered(s: Fs, g: Tree, i: nat, t: Fs) {
    && InvBy(s, g) && LiveDir(s, i)
    && t == s.(disk := t.disk, curBlock := DirBlock(InodeAt(s, i)), cur := Dir(s, i))
    && SameOutside(s.disk, t.disk, [s.curBlock] + Header())
    && (forall d :: LiveDir(s, d) ==> DirInodeRight(t, d) && Dir(t, d) == Dir(s, d))
  }

  /** The saved block belongs to a directory, so no inode's blocks or data change. */
  lemma EnteredInode(s: Fs, g: Tree, i: nat, t: Fs, j: nat)
    requires Entered(s, g, i, t) && Live(s, j)
    ensures Owned(t.disk, InodeAt(t, j)) == Owned(s.disk, InodeAt(s, j))
    ensures LiveFile(s, j) ==>
              Contents(t.disk, InodeAt(t, j)) == Contents(s.disk, InodeAt(s, j)) &&
              DataBlocks(t.disk, InodeAt(t, j)) == DataBlocks(s.disk, InodeAt(s, j))
  {
    hide BlocksRight, FilesRight, LinksRight, Sized, CStr, EntriesRight, DotsRight, Contents;
    HereIsOnly(s, g, g.here);
    if j != g.here {
      OwnedAreOwners(s, g, g.here);
      OwnedAreOwners(s, g, j);
      assert Owned(s.disk, InodeAt(s, g.here))[0] == s.curBlock;
      assert s.curBlock in Owned(s.disk, InodeAt(s, g.here));
      InodeUntouched(s.disk, t.disk, [s.curBlock] + Header(), InodeAt(s, j));
    }
  }

  lemma EnteredOwnersAndFiles(s: Fs, g: Tree, i: nat, t: Fs)
    requires Entered(s, g, i, t)
    ensures OwnersRight(t, g.(here := i)) && FilesRight(t)
  {
    hide Sized, BlocksRight, Readable, CStr, Owned, Contents, DirsRight, LinksRight, DataBlocks;
    forall j | Live(s, j) ensures Owned(t.disk, InodeAt(t, j)) == Owned(s.disk, InodeAt(s, j)) {
      EnteredInode(s, g, i, t, j);
    }
    forall f | LiveFile(t, f) ensures FileRight(t, f) {
      EnteredInode(s, g, i, t, f);
      assert FileRight(s, f);
    }
  }

  lemma EnteredDirs(s: Fs, g: Tree, i: nat, t: Fs)
    requires Entered(s, g, i, t)
    ensures DirsRight(t, g.(here := i))
  {
    hide Sized, BlocksRight, OwnersRight, FilesRight, CStr, LinksRight, DotsRight, EntriesRight;
    forall d | LiveDir(t, d) ensures DirRight(t, g.(here := i), d) {
      assert LiveDir(s, d) && DirRight(s, g, d);
      EnteredEntries(s, g, i, t, d);
    }
  }

  lemma EnteredLinks(s: Fs, g: Tree, i: nat, t: Fs)
    requires Entered(s, g, i, t)
    ensures LinksRight(t, g.(here := i))
  {
    hide Sized, BlocksRight, OwnersRight, FilesRight, CStr, DirsRight, Dir;
    forall j | Live(t, j) && j != ROOT ensures LinkRight(t, g.(here := i), j) {
      assert LinkRight(s, g, j);
    }
  }

  lemma EnteredKeepsInv(s: Fs, g: Tree, i: nat, t: Fs)
    requires Entered(s, g, i, t)
    ensures InvBy(t, g.(here := i))
  {
    hide Sized, BlocksRight, OwnersRight, FilesRight, DirsRight, LinksRight;
    EnteredOwnersAndFiles(s, g, i, t);
    EnteredDirs(s, g, i, t);
    EnteredLinks(s, g, i, t);
    EnteredSized(s, g, i, t);
  }

  lemma EnteredEntries(s: Fs, g: Tree, i: nat, t: Fs, d: nat)
    requires Entered(s, g, i, t) && EntriesRight(s, g, Dir(s, d), d)
    ensures EntriesRight(t, g.(here := i), Dir(s, d), d)
  {
    hide OwnersRight, BlocksRight, FilesRight, DirsRight, LinksRight, Sized, CStr;
    var l := Dir(s, d);
    forall k | Dots(d) <= k < l.numEntry && k < |l.slots| ensures EntryRight(t, g.(here := i), l.slots[k], d) {
      assert EntryRight(s, g, l.slots[k], d);
    }
  }

  lemma EnteredSized(s: Fs, g: Tree, i: nat, t: Fs)
    requires Entered(s, g, i, t)
    ensures Sized(t) && BlocksRight(t, g.(here := i))
  {
  }

  lemma {:induction false} ChangeDirKeepsInv(s: Fs, g: Tree, name: seq<char>)
    requires InvBy(s, g)
    ensures Shaped(s.cur)
    ensures var (t, r) := ChangeDir(s, name);
            if r != Ok then t == s else Search(s.cur, name) >= 0 && InvBy(t, g.(here := Search(s.cur, name)))
  {
    hide InvBy, ChangeDir;
    ChangeDirKeepsListings(s, g, name);
    if ChangeDir(s, name).1 == Ok {
      EnteredKeepsInv(s, g, Search(s.cur, name), ChangeDir(s, name).0);
    }
  }

  // ---- commands ----

  /**
   A command with what it finds outside the file system: the buffer create writes from, and what
   the new directory's block held.
   */
  datatype Command =
    | CreateFile(name: seq<char>, size: int, buf: seq<char>)
    | CatFile(name: seq<char>)
    | RemoveFile(name: seq<char>)
    | HardLink(src: seq<char>, dest: seq<char>)
    | CopyFile(src: seq<char>, dest: seq<char>)
    | MakeDirectory(name: seq<char>, junk: seq<Entry>)
    | RemoveDirectory(name: seq<char>)
    | ChangeDirectory(name: seq<char>)

  /** A command as a user can type it: names that fit, and whatever memory holds. */
  ghost predicate Plain(s: Fs, c: Command) {
    && Shaped(s.cur)
    && match c
       case CreateFile(name, size, buf) => ValidName(name) && (0 < size <= MAX_SIZE ==> Generated(buf, size))
       case HardLink(src, dest) => ValidName(dest)
       case CopyFile(src, dest) => ValidName(dest)
       case MakeDirectory(name, junk) => ValidName(name) && Shaped(Dentry(0, junk))
       case _ => true
  }

  /** What the program assumes besides: a link is to a file, and there is a block for a new directory. */
  ghost predicate Admissible(s: Fs, c: Command) {
    && Plain(s, c)
    && (c.HardLink? ==> !LiveDir(s, Search(s.cur, c.src)))
    && (c.MakeDirectory? ==> s.freeBlocks >= 1)
  }

  /** The source of a copy is a well-shaped file, if it is a file; the invariant sees to that. */
  ghost predicate CopyReady(s: Fs, c: Command)
    requires Shaped(s.cur)
  {
    c.CopyFile? ==>
      var i := Search(s.cur, c.src);
      i >= 0 && InodeAt(s, i).kind == File ==> FileShaped(s.disk, InodeAt(s, i))
  }

  ghost function Effect(s: Fs, c: Command): (r: (Fs, Reply))
    requires Plain(s, c) && CopyReady(s, c)
  {
    match c
    case CreateFile(name, size, buf) => Create(s, name, size, buf)
    case CatFile(name) => (s, if Search(s.cur, name) >= 0 then Ok else NotFound)
    case RemoveFile(name) => Remove(s, name)
    case HardLink(src, dest) => Link(s, src, dest)
    case CopyFile(src, dest) => Copy(s, src, dest)
    case MakeDirectory(name, junk) => MakeDir(s, name, junk)
    case RemoveDirectory(name) => RemoveDir(s, name)
    case ChangeDirectory(name) => ChangeDir(s, name)
  }

  lemma CopyIsReady(s: Fs, c: Command)
    requires Inv(s) && Plain(s, c)
    ensures CopyReady(s, c)
  {
    hide InvBy, Copy, Grown, Contents;
    if c.CopyFile? {
      var g :| InvBy(s, g);
      CopyKeepsInv(s, g, c.src, c.dest);
    }
  }

  /** `execute_command` */
  ghost function Execute(s: Fs, c: Command): (r: (Fs, Reply))
    requires Inv(s) && Admissible(s, c)
    ensures Inv(r.0)
  {
    CopyIsReady(s, c);
    CommandKeepsInv(s, c);
    Effect(s, c)
  }

  /** The witness after a command. */
  ghost function TreeAfterCommand(s: Fs, g: Tree, c: Command): Tree
    requires Admissible(s, c) && CopyReady(s, c)
  {
    if Effect(s, c).1 != Ok then g
    else
      match c
      case CreateFile(_, size, _) =>
        if size >= 0 && g.here in g.depth && FirstFree(s.inodeMap, 0) >= 0
        then Grow(g, FirstFree(s.inodeMap, 0), Alloc(s.blockMap, Needed(size))) else g
      case CopyFile(src, _) =>
        var size := InodeAt(s, Search(s.cur, src)).size;
        if size >= 0 && g.here in g.depth && FirstFree(s.inodeMap, 0) >= 0
        then Grow(g, FirstFree(s.inodeMap, 0), Alloc(s.blockMap, Needed(size))) else g
      case MakeDirectory(_, _) =>
        if g.here in g.depth && FirstFree(s.inodeMap, 0) >= 0
        then Grow(g, FirstFree(s.inodeMap, 0), [FirstFree(s.blockMap, 0)]) else g
      case RemoveFile(name) => if Search(s.cur, name) >= 0 then TreeAfter(s, g, Search(s.cur, name)) else g
      case RemoveDirectory(name) => if Search(s.cur, name) >= 0 then TreeAfter(s, g, Search(s.cur, name)) else g
      case ChangeDirectory(name) => if Search(s.cur, name) >= 0 then g.(here := Search(s.cur, name)) else g
      case _ => g
  }

  /** Every command keeps the invariant. */
  lemma {:induction false} CommandKeepsTree(s: Fs, g: Tree, c: Command)
    requires InvBy(s, g) && Admissible(s, c) && CopyReady(s, c)
    ensures InvBy(Effect(s, c).0, TreeAfterCommand(s, g, c))
  {
    hide InvBy, Create, Copy, Remove, Link, MakeDir, RemoveDir, ChangeDir, Grow, TreeAfter, Alloc, FirstFree,
         Grown, NewDirRight;
    match c {
      case CreateFile(name, size, buf) => CreateKeepsInv(s, g, name, size, buf);
      case CatFile(name) =>
      case RemoveFile(name) => RemoveKeepsInv(s, g, name);
      case HardLink(src, dest) => LinkKeepsInv(s, g, src, dest);
      case CopyFile(src, dest) => CopyKeepsInv(s, g, src, dest);
      case MakeDirectory(name, junk) =>
        MakeDirGrows(s, g, name, junk);
        var (t, r) := MakeDir(s, name, junk);
        if r == Ok {
          GrownKeepsInv(s, g, t, FirstFree(s.inodeMap, 0), [FirstFree(s.blockMap, 0)], name);
        }
      case RemoveDirectory(name) => RemoveDirKeepsInv(s, g, name);
      case ChangeDirectory(name) => ChangeDirKeepsInv(s, g, name);
    }
  }

  lemma CommandKeepsInv(s: Fs, c: Command)
    requires Inv(s) && Admissible(s, c) && CopyReady(s, c)
    ensures Inv(Effect(s, c).0)
  {
    hide InvBy, Effect, TreeAfterCommand;
    var g :| InvBy(s, g);
    CommandKeepsTree(s, g, c);
  }
}
