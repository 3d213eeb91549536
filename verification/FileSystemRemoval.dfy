/** Removing files and directories, hard links, and changing the current directory. */
module FileSystemRemoval {
  import opened Sequences
  import opened FileSystemModel
  import opened FileSystemInvariant
  import opened FileSystemGrowth

  // ---- names under the shift ----

  lemma {:induction false} CStrPrefix(p: seq<char>, rest: seq<char>)
    requires '\0' !in p
    ensures CStr(p + rest) == p + CStr(rest)
  {
    if p == [] {
      assert p + rest == rest;
    } else {
      assert (p + rest)[1..] == p[1..] + rest;
      CStrPrefix(p[1..], rest);
    }
  }

  /** The shift copies a name without its NUL, so the tail of the overwritten buffer shows through. */
  lemma OverlayName(dst: seq<char>, src: seq<char>)
    requires |dst| == |src|
    ensures CStr(Overlay(dst, src)) == CStr(src) + CStr(dst[|CStr(src)|..])
  {
    CStrPrefix(CStr(src), dst[|CStr(src)|..]);
  }

  /** It never turns a name into a dot name. */
  lemma OverlayKeepsPlain(dst: seq<char>, src: seq<char>)
    requires |dst| == |src| && CStr(src) != [] && CStr(src) != DOT && CStr(src) != DOTDOT
    ensures CStr(Overlay(dst, src)) != [] && CStr(Overlay(dst, src)) != DOT && CStr(Overlay(dst, src)) != DOTDOT
  {
    OverlayName(dst, src);
    var p, r := CStr(src), CStr(Overlay(dst, src));
    assert r[0] == p[0];
    if |p| == 2 { assert r[1] == p[1] && p == [p[0], p[1]]; }
    if |p| == 1 { assert p == [p[0]]; }
  }

  /** A shifted name survives exactly when the byte that should end it is already NUL, or it fills the buffer. */
  lemma OverlayKeepsNameIff(dst: seq<char>, src: seq<char>)
    requires |dst| == |src|
    ensures CStr(Overlay(dst, src)) == CStr(src) <==> |CStr(src)| == |dst| || dst[|CStr(src)|] == '\0'
  {
    OverlayName(dst, src);
  }

  /** The names a user sees in a directory. */
  function Names(d: Dentry): (r: seq<seq<char>>)
    requires Shaped(d)
    ensures |r| == d.numEntry && forall k :: 0 <= k < |r| ==> r[k] == CStr(d.slots[k].name)
  {
    seq(d.numEntry, k requires 0 <= k < d.numEntry => CStr(d.slots[k].name))
  }

  /**
   Removing entry `k` leaves the other names as they were exactly when, in each slot that is
   overwritten, the byte at the length of the next name is NUL.
   */
  lemma {:induction false} RemovalKeepsNamesIff(d: Dentry, k: nat)
    requires Shaped(d) && k < d.numEntry
    ensures Names(RemoveEntry(d, k)) == Names(d)[..k] + Names(d)[k + 1..]
            <==> forall i :: k <= i < d.numEntry - 1 ==> TailEnded(d.slots[i].name, CStr(d.slots[i + 1].name))
  {
    hide CStr, Overlay, Shift;
    var after, cut := Names(RemoveEntry(d, k)), Names(d)[..k] + Names(d)[k + 1..];
    assert |after| == |cut| == d.numEntry - 1;
    forall i | k <= i < d.numEntry - 1
      ensures after[i] == cut[i] <==> TailEnded(d.slots[i].name, CStr(d.slots[i + 1].name))
    {
      OverlayKeepsNameIff(d.slots[i].name, d.slots[i + 1].name);
    }
    forall i | 0 <= i < k ensures after[i] == cut[i] {}
    if after == cut {
      forall i | k <= i < d.numEntry - 1 ensures TailEnded(d.slots[i].name, CStr(d.slots[i + 1].name)) {
        assert after[i] == cut[i];
      }
    }
  }

  /** The byte of `buf` where a copied `name` should end is NUL, or the name fills the buffer. */
  predicate TailEnded(buf: seq<char>, name: seq<char>) {
    |name| >= |buf| || buf[|name|] == '\0'
  }

  /** Names of one length are always kept. */
  lemma EqualLengthsKeepNames(d: Dentry, k: nat, n: nat)
    requires Shaped(d) && k < d.numEntry && n < MAX_FILE_NAME
    requires forall i :: k <= i < d.numEntry ==> |CStr(d.slots[i].name)| == n
    ensures Names(RemoveEntry(d, k)) == Names(d)[..k] + Names(d)[k + 1..]
  {
    RemovalKeepsNamesIff(d, k);
    forall i | k <= i < d.numEntry - 1 ensures TailEnded(d.slots[i].name, CStr(d.slots[i + 1].name)) {
      assert |CStr(d.slots[i].name)| == n;
    }
  }

  // ---- counting ----

  lemma {:induction false} CountCut(xs: seq<nat>, k: nat, x: nat)
    requires k < |xs|
    ensures Count(xs[..k] + xs[k + 1..], x) == Count(xs, x) - if xs[k] == x then 1 else 0
  {
    var cut := xs[..k] + xs[k + 1..];
    if k == 0 {
      assert cut == xs[1..];
    } else {
      assert cut[1..] == xs[1..][..k - 1] + xs[1..][k..];
      CountCut(xs[1..], k - 1, x);
    }
  }

  lemma NamedRemoved(d: Dentry, k: nat, from: nat)
    requires Shaped(d) && from <= k < d.numEntry
    ensures var xs := Named(d, from);
            |xs| > k - from && Named(RemoveEntry(d, k), from) == xs[..k - from] + xs[k - from + 1..]
  {
    var xs, ys := Named(d, from), Named(RemoveEntry(d, k), from);
    forall j | 0 <= j < |ys| ensures ys[j] == (xs[..k - from] + xs[k - from + 1..])[j] {}
  }

  // ---- unlinking ----

  /** The entry to be removed, its inode, and that nothing hangs below it. */
  ghost predicate Removable(s: Fs, g: Tree, i: nat, k: nat) {
    && InvBy(s, g) && Dots(g.here) <= k < s.cur.numEntry && k < |s.cur.slots|
    && s.cur.slots[k].inode == i
    && (LiveDir(s, i) ==> Dir(s, i).numEntry == 2)
  }

  lemma RemovableFacts(s: Fs, g: Tree, i: nat, k: nat)
    requires Removable(s, g, i, k)
    ensures i != ROOT && Live(s, i) && LinkRight(s, g, i) && g.up[i] == g.here && i != g.here
    ensures Shaped(s.cur) && Dir(s, g.here) == s.cur && DotsRight(s.cur, g.here, ParentOf(g, g.here))
  {
    hide OwnersRight, BlocksRight, FilesRight, Sized, CStr;
    HereDots(s, g);
    assert EntryRight(s, g, s.cur.slots[k], g.here);
  }

  /** Nobody's directory is an inode that may be removed. */
  lemma NothingBelow(s: Fs, g: Tree, i: nat, k: nat, j: nat)
    requires Removable(s, g, i, k) && Live(s, j) && j != ROOT
    ensures j in g.up && g.up[j] != i
  {
    hide OwnersRight, BlocksRight, FilesRight, Sized, CStr, EntriesRight;
    RemovableFacts(s, g, i, k);
    assert LinkRight(s, g, j);
    assert LiveDir(s, i) ==> Named(Dir(s, i), Dots(i)) == [];
  }

  function Prune(g: Tree, i: nat, bs: seq<int>): Tree {
    Tree(g.up - {i}, g.depth - {i}, g.owner - (set b | b in bs), g.here)
  }

  /** The entry's directory afterwards; every other directory is untouched. */
  lemma UnlinkListing(s: Fs, g: Tree, i: nat, k: nat, d: nat)
    requires Removable(s, g, i, k) && LiveDir(s, d) && Shaped(s.cur)
    ensures var t := Unlink(s, i, k);
            && DirInodeRight(t, d) && InodeAt(t, d).direct == InodeAt(s, d).direct && InodeAt(t, d).kind == Directory
            && Dir(t, d) == if d == g.here then RemoveEntry(s.cur, k) else Dir(s, d)
  {
    hide OwnersRight, BlocksRight, FilesRight, LinksRight, Sized, CStr, EntriesRight, RemoveEntry, PutAll, Freed;
    HereIsOnly(s, g, d);
  }

  /** Whether this removal takes the last name. */
  predicate LastName(s: Fs, i: nat) {
    InodeAt(s, i).linkCount <= 1
  }

  lemma UnlinkMaps(s: Fs, g: Tree, i: nat, k: nat)
    requires Removable(s, g, i, k) && Shaped(s.cur)
    ensures var t := Unlink(s, i, k);
            && |t.inodes| == |s.inodes| && t.disk == s.disk && t.curBlock == s.curBlock &&
               t.cur == RemoveEntry(s.cur, k)
            && (forall j :: Live(s, j) && j != i ==> InodeAt(t, j) == InodeAt(s, j))
            && InodeAt(t, i) == InodeAt(s, i).(linkCount := InodeAt(s, i).linkCount - 1)
            && (forall j {:trigger Live(t, j)} :: Live(t, j) <==> Live(s, j) && !(LastName(s, i) && j == i))
            && (if LastName(s, i) then
                  t.blockMap == PutAll(s.blockMap, Owned(s.disk, InodeAt(s, i)), false) &&
                    t.inodeMap == s.inodeMap[i := false]
                else t.blockMap == s.blockMap && t.inodeMap == s.inodeMap)
  {
    hide OwnersRight, BlocksRight, FilesRight, LinksRight, CStr, RemoveEntry, PutAll, Freed, Owned;
    RemovableFacts(s, g, i, k);
  }

  function TreeAfter(s: Fs, g: Tree, i: nat): Tree {
    if LastName(s, i) then Prune(g, i, Owned(s.disk, InodeAt(s, i))) else g
  }

  lemma UnlinkSized(s: Fs, g: Tree, i: nat, k: nat)
    requires Removable(s, g, i, k) && Shaped(s.cur)
    ensures Sized(Unlink(s, i, k))
  {
    hide FilesRight, DirsRight, LinksRight, CStr, RemoveEntry, PutAll, Freed, Owned;
    RemovableFacts(s, g, i, k);
    if LastName(s, i) {
      var bs := Owned(s.disk, InodeAt(s, i));
      OwnedAreOwners(s, g, i);
      forall j | 0 <= j < |bs| ensures 0 <= bs[j] < |s.blockMap| && s.blockMap[bs[j]] {
        assert bs[j] in bs;
      }
      ClearCount(s.blockMap, bs);
      CountFalseUpdate(s.inodeMap, i, false);
    }
  }

  lemma UnlinkBlocks(s: Fs, g: Tree, i: nat, k: nat)
    requires Removable(s, g, i, k) && Shaped(s.cur)
    ensures BlocksRight(Unlink(s, i, k), TreeAfter(s, g, i))
  {
    hide OwnersRight, FilesRight, DirsRight, LinksRight, CStr, RemoveEntry, Freed, Owned, PutAll, Unlink;
    RemovableFacts(s, g, i, k);
    OwnedAreOwners(s, g, i);
    UnlinkMaps(s, g, i, k);
    if LastName(s, i) {
      var bs := Owned(s.disk, InodeAt(s, i));
      forall b | 0 <= b < |s.blockMap|
        ensures PutAll(s.blockMap, bs, false)[b] == if b in bs then false else s.blockMap[b]
      {
        PutAllAt(s.blockMap, bs, false, b);
      }
    }
  }

  lemma OwnedAreOwners(s: Fs, g: Tree, i: nat)
    requires InvBy(s, g) && Live(s, i)
    ensures forall b :: b in Owned(s.disk, InodeAt(s, i)) <==> b in g.owner && g.owner[b] == i
    ensures forall b :: b in Owned(s.disk, InodeAt(s, i)) ==> RESERVED <= b < |s.blockMap|
  {
    hide FilesRight, DirsRight, LinksRight, Owned, Sized;
  }

  lemma UnlinkOwners(s: Fs, g: Tree, i: nat, k: nat)
    requires Removable(s, g, i, k) && Shaped(s.cur)
    ensures OwnersRight(Unlink(s, i, k), TreeAfter(s, g, i))
  {
    hide BlocksRight, FilesRight, DirsRight, LinksRight, CStr, RemoveEntry, Freed, PutAll, Unlink, Sized, PointersAt;
    RemovableFacts(s, g, i, k);
    UnlinkMaps(s, g, i, k);
    OwnedAreOwners(s, g, i);
    var t, h := Unlink(s, i, k), TreeAfter(s, g, i);
    forall j | Live(s, j) ensures Owned(t.disk, InodeAt(t, j)) == Owned(s.disk, InodeAt(s, j)) {
      if j != i { assert InodeAt(t, j) == InodeAt(s, j); }
    }
    forall b | b in h.owner ensures Live(t, h.owner[b]) && b in Owned(t.disk, InodeAt(t, h.owner[b])) {
      assert b in g.owner;
    }
  }

  lemma UnlinkFiles(s: Fs, g: Tree, i: nat, k: nat)
    requires Removable(s, g, i, k) && Shaped(s.cur)
    ensures FilesRight(Unlink(s, i, k))
  {
    hide OwnersRight, BlocksRight, DirsRight, LinksRight, CStr, RemoveEntry, Unlink, Readable;
    RemovableFacts(s, g, i, k);
    UnlinkMaps(s, g, i, k);
    var t := Unlink(s, i, k);
    forall f | LiveFile(t, f) ensures FileRight(t, f) {
      if f != i { assert InodeAt(t, f) == InodeAt(s, f); }
      assert Live(s, f) && FileRight(s, f);
      assert Contents(t.disk, InodeAt(t, f)) == Contents(s.disk, InodeAt(s, f));
    }
  }

  /** An entry that is still there is still right, under the name the shift has given it. */
  lemma KeptEntry(s: Fs, g: Tree, i: nat, k: nat, e: Entry, dst: seq<char>, d: nat)
    requires Removable(s, g, i, k) && Shaped(s.cur) && EntryRight(s, g, e, d) && |dst| == |e.name|
    requires LastName(s, i) ==> e.inode != i
    ensures EntryRight(Unlink(s, i, k), TreeAfter(s, g, i), e, d)
    ensures EntryRight(Unlink(s, i, k), TreeAfter(s, g, i), Entry(Overlay(dst, e.name), e.inode), d)
  {
    hide InvBy, LinkRight, CStr, RemoveEntry, Unlink, Overlay, Owned, PutAll, Shaped;
    UnlinkMaps(s, g, i, k);
    RemovableFacts(s, g, i, k);
    assert Live(s, e.inode) && (e.inode == i || InodeAt(Unlink(s, i, k), e.inode) == InodeAt(s, e.inode));
    NonEmptyOverlay(dst, e.name);
    if LiveDir(s, e.inode) { OverlayKeepsPlain(dst, e.name); }
  }

  lemma NonEmptyOverlay(dst: seq<char>, src: seq<char>)
    requires |dst| == |src| && CStr(src) != []
    ensures CStr(Overlay(dst, src)) != []
  {
    OverlayName(dst, src);
  }

  /** The last name of an inode is the only entry of its directory that names it. */
  lemma NamedOnce(s: Fs, g: Tree, i: nat, k: nat)
    requires Removable(s, g, i, k) && LastName(s, i)
    ensures Count(Named(s.cur, Dots(g.here)), i) == 1
  {
    hide OwnersRight, BlocksRight, FilesRight, DirsRight, CStr, Sized, Count;
    RemovableFacts(s, g, i, k);
  }

  /** Whatever an entry of a directory names has that directory. */
  lemma EntryHasDirectory(s: Fs, g: Tree, d: nat, m: nat)
    requires InvBy(s, g) && LiveDir(s, d) && Dots(d) <= m < Dir(s, d).numEntry && m < |Dir(s, d).slots|
    ensures var i := Dir(s, d).slots[m].inode; i in g.up && g.up[i] == d
  {
    hide OwnersRight, BlocksRight, FilesRight, CStr, Sized, LinksRight, DotsRight;
    assert DirRight(s, g, d);
    assert EntryRight(s, g, Dir(s, d).slots[m], d);
  }

  /** With the last name going, no other entry of any directory names the inode. */
  lemma OnlyName(s: Fs, g: Tree, i: nat, k: nat, d: nat, m: nat)
    requires Removable(s, g, i, k) && LastName(s, i) && LiveDir(s, d)
    requires Dots(d) <= m < Dir(s, d).numEntry && m < |Dir(s, d).slots| && (d != g.here || m != k)
    ensures Dir(s, d).slots[m].inode != i
  {
    hide InvBy, LinkRight, LiveDir, Count, CStr;
    RemovableFacts(s, g, i, k);
    EntryHasDirectory(s, g, d, m);
    if d == g.here {
      NamedOnce(s, g, i, k);
      var xs, from := Named(s.cur, Dots(d)), Dots(d);
      assert xs[k - from] == i && xs[m - from] == s.cur.slots[m].inode;
      OnlyOnce(xs, k - from, m - from, i);
    }
  }

  lemma OnlyOnce(xs: seq<nat>, a: nat, b: nat, x: nat)
    requires Count(xs, x) == 1 && a < |xs| && b < |xs| && a != b && xs[a] == x
    ensures xs[b] != x
  {
    CountCut(xs, a, x);
    var cut := xs[..a] + xs[a + 1..];
    CountAbsent(cut, x);
    assert cut[if b < a then b else b - 1] == xs[b];
  }

  lemma UnlinkEntries(s: Fs, g: Tree, i: nat, k: nat, d: nat)
    requires Removable(s, g, i, k) && Shaped(s.cur) && LiveDir(s, d)
    ensures EntriesRight(Unlink(s, i, k), TreeAfter(s, g, i), Dir(Unlink(s, i, k), d), d)
  {
    hide OwnersRight, BlocksRight, FilesRight, LinksRight, CStr, Unlink, Overlay, EntryRight, Sized, DirInodeRight;
    RemovableFacts(s, g, i, k);
    UnlinkListing(s, g, i, k, d);
    assert DirRight(s, g, d);
    var t, h := Unlink(s, i, k), TreeAfter(s, g, i);
    var l, m := Dir(s, d), Dir(t, d);
    forall j | Dots(d) <= j < m.numEntry && j < |m.slots| ensures EntryRight(t, h, m.slots[j], d) {
      if d == g.here && j >= k {
        if LastName(s, i) { OnlyName(s, g, i, k, d, j + 1); }
        KeptEntry(s, g, i, k, l.slots[j + 1], l.slots[j].name, d);
      } else {
        if LastName(s, i) { OnlyName(s, g, i, k, d, j); }
        KeptEntry(s, g, i, k, l.slots[j], l.slots[j].name, d);
      }
    }
  }

  lemma UnlinkDir(s: Fs, g: Tree, i: nat, k: nat, d: nat)
    requires Removable(s, g, i, k) && Shaped(s.cur) && LiveDir(s, d) && !(LastName(s, i) && d == i)
    ensures DirRight(Unlink(s, i, k), TreeAfter(s, g, i), d)
  {
    hide OwnersRight, BlocksRight, FilesRight, CStr, Unlink, EntriesRight, Sized, LinksRight, RemoveEntry, Overlay;
    RemovableFacts(s, g, i, k);
    UnlinkListing(s, g, i, k, d);
    UnlinkEntries(s, g, i, k, d);
    assert DirRight(s, g, d);
    if d == g.here { RemovedSlots(s.cur, k, d); }
    assert ParentOf(TreeAfter(s, g, i), d) == ParentOf(g, d);
  }

  /** The dot entries stay where they are. */
  lemma RemovedSlots(d: Dentry, k: nat, self: nat)
    requires Shaped(d) && Dots(self) <= k < d.numEntry
    ensures var r := RemoveEntry(d, k);
            Shaped(r) && Dots(self) <= r.numEntry && r.slots[0] == d.slots[0] &&
              (self != ROOT ==> r.slots[1] == d.slots[1])
  {
  }

  lemma UnlinkDirs(s: Fs, g: Tree, i: nat, k: nat)
    requires Removable(s, g, i, k) && Shaped(s.cur)
    ensures DirsRight(Unlink(s, i, k), TreeAfter(s, g, i))
  {
    hide OwnersRight, BlocksRight, FilesRight, LinksRight, DirRight, CStr, Unlink, Sized, TreeAfter;
    UnlinkMaps(s, g, i, k);
    var t := Unlink(s, i, k);
    forall d | LiveDir(t, d) ensures DirRight(t, TreeAfter(s, g, i), d) {
      assert Live(s, d) && (d == i || InodeAt(t, d) == InodeAt(s, d));
      UnlinkDir(s, g, i, k, d);
    }
  }

  /** How many names an inode keeps. */
  lemma UnlinkCount(s: Fs, g: Tree, i: nat, k: nat, d: nat, j: nat)
    requires Removable(s, g, i, k) && Shaped(s.cur) && LiveDir(s, d) && (d == g.here || j != i)
    ensures Links(Dir(Unlink(s, i, k), d), Dots(d), j) == Links(Dir(s, d), Dots(d), j) - if j == i then 1 else 0
  {
    hide OwnersRight, BlocksRight, FilesRight, LinksRight, DirsRight, CStr, Unlink, EntriesRight, Sized, RemoveEntry;
    RemovableFacts(s, g, i, k);
    UnlinkListing(s, g, i, k, d);
    if d == g.here {
      var from := Dots(d);
      NamedRemoved(s.cur, k, from);
      CountCut(Named(s.cur, from), k - from, j);
    }
  }

  lemma UnlinkLink(s: Fs, g: Tree, i: nat, k: nat, j: nat)
    requires Removable(s, g, i, k) && Shaped(s.cur) && Live(Unlink(s, i, k), j) && j != ROOT
    ensures LinkRight(Unlink(s, i, k), TreeAfter(s, g, i), j)
  {
    hide OwnersRight, BlocksRight, FilesRight, DirsRight, CStr, Unlink, Sized, RemoveEntry, Links, Dir;
    RemovableFacts(s, g, i, k);
    UnlinkMaps(s, g, i, k);
    assert Live(s, j) && LinkRight(s, g, j);
    NothingBelow(s, g, i, k, j);
    var d := g.up[j];
    UnlinkCount(s, g, i, k, d, j);
    if d != ROOT { assert Live(s, d) && LinkRight(s, g, d); }
  }

  /** Removing a name keeps the invariant, whether or not it was the last. */
  lemma {:induction false} UnlinkKeepsInv(s: Fs, g: Tree, i: nat, k: nat)
    requires Removable(s, g, i, k)
    ensures Shaped(s.cur) && InvBy(Unlink(s, i, k), TreeAfter(s, g, i))
  {
    hide OwnersRight, BlocksRight, FilesRight, DirsRight, LinkRight, CStr, Unlink, Sized, Owned;
    RemovableFacts(s, g, i, k);
    UnlinkMaps(s, g, i, k);
    UnlinkSized(s, g, i, k);
    UnlinkBlocks(s, g, i, k);
    UnlinkOwners(s, g, i, k);
    UnlinkFiles(s, g, i, k);
    UnlinkDirs(s, g, i, k);
    forall j | Live(Unlink(s, i, k), j) && j != ROOT ensures LinkRight(Unlink(s, i, k), TreeAfter(s, g, i), j) {
      UnlinkLink(s, g, i, k, j);
    }
  }

  // ---- rm and rmdir ----

  /** What rm finds may be removed. */
  lemma FoundFileIsRemovable(s: Fs, g: Tree, name: seq<char>)
    requires InvBy(s, g)
    ensures Shaped(s.cur)
    ensures var i, k := Search(s.cur, name), FindFrom(s.cur, name, 0);
            i >= 0 && InodeAt(s, i).kind == File ==> k < s.cur.numEntry && Removable(s, g, i, k) && LiveFile(s, i)
  {
    hide OwnersRight, BlocksRight, FilesRight, CStr, DirsRight, EntryRight;
    HereDots(s, g);
    ParentIsDir(s, g);
    var i, k := Search(s.cur, name), FindFrom(s.cur, name, 0);
    if i >= 0 && InodeAt(s, i).kind == File {
      EntryIsLive(s, g, s.cur.slots[k], g.here);
    }
  }

  lemma ParentIsDir(s: Fs, g: Tree)
    requires InvBy(s, g)
    ensures g.here != ROOT ==> LiveDir(s, ParentOf(g, g.here))
  {
    hide OwnersRight, BlocksRight, FilesRight, CStr, DirsRight, Sized;
    if g.here != ROOT { assert LinkRight(s, g, g.here); }
  }

  lemma EntryIsLive(s: Fs, g: Tree, e: Entry, d: nat)
    requires EntryRight(s, g, e, d)
    ensures Live(s, e.inode) && e.inode != ROOT
  {
  }

  /** So may what rmdir finds, once it has passed its tests. */
  lemma FoundDirIsRemovable(s: Fs, g: Tree, name: seq<char>)
    requires InvBy(s, g) && name != DOT && name != DOTDOT
    ensures Shaped(s.cur)
    ensures var i, k := Search(s.cur, name), FindFrom(s.cur, name, 0);
            var n := InodeAt(s, i);
            i >= 0 && n.kind == Directory ==>
              && k < s.cur.numEntry && LiveDir(s, i) && n.direct != []
              && ListingAt(s.disk, n.direct[0]) == Dir(s, i)
              && (Dir(s, i).numEntry == 2 ==> Removable(s, g, i, k))
  {
    hide OwnersRight, BlocksRight, FilesRight, CStr, EntryRight, DirsRight;
    HereDots(s, g);
    var i, k := Search(s.cur, name), FindFrom(s.cur, name, 0);
    if i >= 0 && InodeAt(s, i).kind == Directory {
      assert k >= Dots(g.here);
      EntryIsLive(s, g, s.cur.slots[k], g.here);
      NotItself(s, g, k);
      HereIsOnly(s, g, i);
    }
  }

  /** The current directory is not one of its own entries. */
  lemma NotItself(s: Fs, g: Tree, k: nat)
    requires InvBy(s, g) && Dots(g.here) <= k < s.cur.numEntry && k < |s.cur.slots|
    ensures s.cur.slots[k].inode != g.here
  {
    hide OwnersRight, BlocksRight, FilesRight, CStr, DirsRight;
    HereDots(s, g);
    assert EntryRight(s, g, s.cur.slots[k], g.here);
    assert LinkRight(s, g, s.cur.slots[k].inode);
  }

  lemma {:induction false} RemoveKeepsInv(s: Fs, g: Tree, name: seq<char>)
    requires InvBy(s, g)
    ensures Shaped(s.cur)
    ensures var (t, r) := Remove(s, name);
            if r != Ok then t == s
            else
              var i := Search(s.cur, name);
              i >= 0 && LiveFile(s, i) && InvBy(t, TreeAfter(s, g, i))
  {
    hide InvBy, Unlink, CStr;
    FoundFileIsRemovable(s, g, name);
    if Remove(s, name).1 == Ok {
      UnlinkKeepsInv(s, g, Search(s.cur, name), FindFrom(s.cur, name, 0));
    }
  }

  lemma {:induction false} RemoveDirKeepsInv(s: Fs, g: Tree, name: seq<char>)
    requires InvBy(s, g)
    ensures Shaped(s.cur)
    ensures var (t, r) := RemoveDir(s, name);
            if r != Ok then t == s
            else Search(s.cur, name) >= 0 && LiveDir(s, Search(s.cur, name)) && Search(s.cur, name) != g.here
                 && InvBy(t, TreeAfter(s, g, Search(s.cur, name)))
  {
    hide InvBy, Unlink, CStr;
    if name != DOT && name != DOTDOT {
      FoundDirIsRemovable(s, g, name);
      if RemoveDir(s, name).1 == Ok {
        RemovableFacts(s, g, Search(s.cur, name), FindFrom(s.cur, name, 0));
        UnlinkKeepsInv(s, g, Search(s.cur, name), FindFrom(s.cur, name, 0));
      }
    } else {
      HereDots(s, g);
    }
  }

  // ---- ln ----

  /** Room for a new name of a live inode. */
  ghost predicate Nameable(s: Fs, g: Tree, i: nat, dest: seq<char>) {
    InvBy(s, g) && s.cur.numEntry < MAX_DIR_ENTRY && ValidName(dest) && Live(s, i)
  }

  /** A new name for a live file of the current directory. */
  ghost predicate Linkable(s: Fs, g: Tree, i: nat, dest: seq<char>) {
    Nameable(s, g, i, dest) && LiveFile(s, i) && i in g.up && g.up[i] == g.here
  }

  lemma LinkMaps(s: Fs, g: Tree, i: nat, dest: seq<char>)
    requires Nameable(s, g, i, dest)
    ensures Shaped(s.cur)
    ensures var t := AddLink(s, i, dest);
            && t == s.(inodes := t.inodes, cur := AddEntry(s.cur, dest, i)) && |t.inodes| == |s.inodes|
            && (forall j :: Live(s, j) && j != i ==> InodeAt(t, j) == InodeAt(s, j))
            && InodeAt(t, i) == InodeAt(s, i).(linkCount := InodeAt(s, i).linkCount + 1)
  {
    hide OwnersRight, BlocksRight, FilesRight, DirsRight, LinksRight, CStr;
    HereDots(s, g);
  }

  lemma LinkListing(s: Fs, g: Tree, i: nat, dest: seq<char>, d: nat)
    requires Nameable(s, g, i, dest) && LiveDir(s, d) && Shaped(s.cur)
    ensures var t := AddLink(s, i, dest);
            && DirInodeRight(t, d) && LiveDir(t, d)
            && Dir(t, d) == if d == g.here then AddEntry(s.cur, dest, i) else Dir(s, d)
  {
    hide OwnersRight, BlocksRight, FilesRight, LinksRight, Sized, CStr, EntriesRight, AddLink;
    LinkMaps(s, g, i, dest);
    HereIsOnly(s, g, d);
  }

  lemma LinkOwnersAndFiles(s: Fs, g: Tree, i: nat, dest: seq<char>)
    requires Linkable(s, g, i, dest) && Shaped(s.cur)
    ensures OwnersRight(AddLink(s, i, dest), g) && FilesRight(AddLink(s, i, dest))
  {
    hide BlocksRight, DirsRight, LinksRight, CStr, AddLink, Sized, Readable;
    LinkMaps(s, g, i, dest);
    var t := AddLink(s, i, dest);
    forall j | Live(s, j) ensures Owned(t.disk, InodeAt(t, j)) == Owned(s.disk, InodeAt(s, j)) {
      if j != i { assert InodeAt(t, j) == InodeAt(s, j); }
    }
    forall f | LiveFile(t, f) ensures FileRight(t, f) {
      if f != i { assert InodeAt(t, f) == InodeAt(s, f); }
      assert Live(s, f) && FileRight(s, f);
      assert Contents(t.disk, InodeAt(t, f)) == Contents(s.disk, InodeAt(s, f));
    }
  }

  lemma LinkEntries(s: Fs, g: Tree, i: nat, dest: seq<char>, d: nat)
    requires Linkable(s, g, i, dest) && LiveDir(s, d) && Shaped(s.cur)
    ensures DirRight(AddLink(s, i, dest), g, d)
  {
    hide OwnersRight, BlocksRight, FilesRight, CStr, AddLink, Sized, LinksRight;
    LinkMaps(s, g, i, dest);
    LinkListing(s, g, i, dest, d);
    HereDots(s, g);
    assert DirRight(s, g, d);
    var t := AddLink(s, i, dest);
    var l, m := Dir(s, d), Dir(t, d);
    forall k | Dots(d) <= k < m.numEntry && k < |m.slots| ensures EntryRight(t, g, m.slots[k], d) {
      if k < l.numEntry {
        assert m.slots[k] == l.slots[k] && EntryRight(s, g, l.slots[k], d);
        var j := l.slots[k].inode;
        assert Live(s, j) && (j == i || InodeAt(t, j) == InodeAt(s, j));
      } else {
        CStrWritten(l.slots[k].name, dest);
        RootIsDir(s, g);
      }
    }
  }

  lemma RootIsDir(s: Fs, g: Tree)
    requires InvBy(s, g)
    ensures LiveDir(s, ROOT)
  {
  }

  lemma LinkLinks(s: Fs, g: Tree, i: nat, dest: seq<char>, j: nat)
    requires Linkable(s, g, i, dest) && Shaped(s.cur) && Live(s, j) && j != ROOT
    ensures LinkRight(AddLink(s, i, dest), g, j)
  {
    hide OwnersRight, BlocksRight, FilesRight, CStr, AddLink, Sized, DirsRight, EntriesRight, DotsRight;
    LinkMaps(s, g, i, dest);
    HereDots(s, g);
    assert LinkRight(s, g, j);
    var d := g.up[j];
    LinkListing(s, g, i, dest, d);
    if d == g.here {
      NamedAdded(s.cur, dest, i, Dots(d));
      CountAppend(Named(s.cur, Dots(d)), i, j);
    }
  }

  lemma AddLinkKeepsInv(s: Fs, g: Tree, i: nat, dest: seq<char>)
    requires Linkable(s, g, i, dest)
    ensures Shaped(s.cur) && InvBy(AddLink(s, i, dest), g)
  {
    hide OwnersRight, FilesRight, DirRight, LinkRight, CStr, AddLink;
    LinkMaps(s, g, i, dest);
    LinkOwnersAndFiles(s, g, i, dest);
    var t := AddLink(s, i, dest);
    forall d | LiveDir(t, d) ensures DirRight(t, g, d) {
      assert Live(s, d) && (d == i || InodeAt(t, d) == InodeAt(s, d));
      LinkEntries(s, g, i, dest, d);
    }
    forall j | Live(t, j) && j != ROOT ensures LinkRight(t, g, j) {
      LinkLinks(s, g, i, dest, j);
    }
    RootIsDir(s, g);
    assert InodeAt(t, ROOT) == InodeAt(s, ROOT) && InodeAt(t, g.here) == InodeAt(s, g.here);
  }

  /** What a plain name of the current directory leads to, if it is not a directory, may be linked. */
  lemma {:induction false} LinkKeepsInv(s: Fs, g: Tree, src: seq<char>, dest: seq<char>)
    requires InvBy(s, g) && ValidName(dest)
    requires Shaped(s.cur) && !LiveDir(s, Search(s.cur, src))
    ensures var (t, r) := Link(s, src, dest);
            if r != Ok then t == s else Search(s.cur, src) >= 0 && LiveFile(s, Search(s.cur, src)) && InvBy(t, g)
  {
    hide OwnersRight, BlocksRight, FilesRight, CStr, AddLink, DirsRight, LinksRight;
    var i := Search(s.cur, src);
    if Link(s, src, dest).1 == Ok {
      FoundFileIsRemovable(s, g, src);
      FoundIsSomething(s, g, src);
      RemovableFacts(s, g, i, FindFrom(s.cur, src, 0));
      AddLinkKeepsInv(s, g, i, dest);
    }
  }

  lemma FoundIsSomething(s: Fs, g: Tree, src: seq<char>)
    requires InvBy(s, g) && Shaped(s.cur) && Search(s.cur, src) >= 0
    ensures var i := Search(s.cur, src); LiveFile(s, i) || LiveDir(s, i)
  {
    hide OwnersRight, BlocksRight, FilesRight, CStr, DirsRight, EntryRight;
    HereDots(s, g);
    var k := FindFrom(s.cur, src, 0);
    if k >= Dots(g.here) {
      EntryIsLive(s, g, s.cur.slots[k], g.here);
    } else if k == 1 {
      assert LinkRight(s, g, g.here);
    }
  }

  // ---- cd ----

  /** Changing the directory changes what no directory holds. */
  lemma {:induction false} ChangeDirKeepsListings(s: Fs, g: Tree, name: seq<char>)
    requires InvBy(s, g)
    ensures Shaped(s.cur)
    ensures var (t, r) := ChangeDir(s, name);
            if r != Ok then t == s
            else
              var i := Search(s.cur, name);
              && i >= 0 && LiveDir(s, i)
              && t == s.(disk := t.disk, curBlock := DirBlock(InodeAt(s, i)), cur := Dir(s, i))
              && SameOutside(s.disk, t.disk, [s.curBlock])
              && (forall d :: LiveDir(s, d) ==> DirInodeRight(t, d) && Dir(t, d) == Dir(s, d))
  {
    hide OwnersRight, BlocksRight, FilesRight, CStr, DirsRight, LinksRight, EntriesRight, Sized;
    HereDots(s, g);
    var (t, r) := ChangeDir(s, name);
    if r == Ok {
      var i := Search(s.cur, name);
      FoundIsSomething(s, g, name);
      HereIsOnly(s, g, i);
      HereIsOnly(s, g, g.here);
      forall d | LiveDir(s, d) ensures DirInodeRight(t, d) && Dir(t, d) == Dir(s, d) {
        HereIsOnly(s, g, d);
      }
    }
  }
}
