/** What the invariant says without a witness: nothing leaks, nothing is shared, and the live inodes form a tree. */
module FileSystemTree {
  import opened Sequences
  import opened FileSystemModel
  import opened FileSystemInvariant
  import opened FileSystemGrowth
  import opened FileSystemRuns
  import opened FileSystemFormat

  // ---- paths ----

  /** An entry of directory `d`, other than its dot entries, names `i`. */
  ghost predicate Holds(s: Fs, d: nat, i: nat) {
    LiveDir(s, d) && i in Named(Dir(s, d), Dots(d))
  }

  /** The inodes on the way from the root. */
  ghost predicate Path(s: Fs, p: seq<nat>) {
    && p != [] && p[0] == ROOT && Live(s, ROOT)
    && forall k :: 0 < k < |p| ==> Holds(s, p[k - 1], p[k])
  }

  ghost predicate Reaches(s: Fs, p: seq<nat>, i: nat) {
    Path(s, p) && p[|p| - 1] == i
  }

  /** What a directory names is live, and has that directory as its own. */
  lemma NamedIsBelow(s: Fs, g: Tree, d: nat, i: nat)
    requires InvBy(s, g) && Holds(s, d, i)
    ensures Live(s, i) && i != ROOT && i in g.up && g.up[i] == d
  {
    hide OwnersRight, BlocksRight, FilesRight, LinksRight, Sized, DotsRight, CStr;
    var l := Dir(s, d);
    assert DirRight(s, g, d);
    var k :| 0 <= k < |Named(l, Dots(d))| && Named(l, Dots(d))[k] == i;
    assert EntryRight(s, g, l.slots[Dots(d) + k], d);
  }

  /** Its directory names every live inode but the root. */
  lemma AboveNames(s: Fs, g: Tree, i: nat)
    requires InvBy(s, g) && Live(s, i) && i != ROOT
    ensures i in g.up && Holds(s, g.up[i], i) && g.up[i] in g.depth && i in g.depth &&
            g.depth[i] == g.depth[g.up[i]] + 1
  {
    hide OwnersRight, BlocksRight, FilesRight, DirsRight, Sized;
    assert LinkRight(s, g, i);
    CountAbsent(Named(Dir(s, g.up[i]), Dots(g.up[i])), i);
  }

  lemma {:induction false} LiveIsReachable(s: Fs, g: Tree, i: nat) returns (p: seq<nat>)
    requires InvBy(s, g) && Live(s, i) && (i == ROOT || i in g.depth)
    ensures Reaches(s, p, i)
    decreases if i == ROOT then 0 else g.depth[i] + 1
  {
    hide OwnersRight, BlocksRight, FilesRight, DirsRight, LinksRight, Sized, Holds;
    if i == ROOT {
      p := [ROOT];
    } else {
      AboveNames(s, g, i);
      var d := g.up[i];
      NamesLive(s, d, i);
      var q := LiveIsReachable(s, g, d);
      p := q + [i];
    }
  }

  lemma NamesLive(s: Fs, d: nat, i: nat)
    requires Holds(s, d, i)
    ensures LiveDir(s, d)
  {
  }

  lemma {:induction false} ReachableIsLive(s: Fs, g: Tree, p: seq<nat>)
    requires InvBy(s, g) && Path(s, p)
    ensures Live(s, p[|p| - 1])
  {
    hide InvBy, Holds;
    if |p| > 1 {
      NamedIsBelow(s, g, p[|p| - 2], p[|p| - 1]);
    }
  }

  /** There is one way to each inode. */
  lemma {:induction false} OneWay(s: Fs, g: Tree, p: seq<nat>, q: seq<nat>)
    requires InvBy(s, g) && Path(s, p) && Path(s, q) && p[|p| - 1] == q[|q| - 1]
    ensures p == q
  {
    hide InvBy, Holds;
    var m, n := |p| - 1, |q| - 1;
    if m > 0 { NamedIsBelow(s, g, p[m - 1], p[m]); }
    if n > 0 { NamedIsBelow(s, g, q[n - 1], q[n]); }
    if m > 0 && n > 0 {
      OneWay(s, g, p[..m], q[..n]);
      assert p == p[..m] + [p[m]] && q == q[..n] + [q[n]];
    }
  }

  // ---- no leak, no sharing ----

  /**
   A block is allocated exactly when it is reserved or a live inode owns it; no two live inodes
   own a block, none owns it twice, and none owns a reserved one.  An inode is allocated exactly
   when a path from the root leads to it, and then just one does.  Its link count is the number of
   entries that name it, all in one directory, and a directory's dot entries lead to itself and to
   the directory that names it.  The cached counts are right.
   */
  ghost predicate Sound(s: Fs) {
    && s.freeInodes == CountFalse(s.inodeMap) && s.freeBlocks == CountFalse(s.blockMap)
    && (forall b :: 0 <= b < |s.blockMap| ==> (s.blockMap[b] <==> b < RESERVED || exists i :: Owns(s, i, b)))
    && (forall i, j, b :: Owns(s, i, b) && Owns(s, j, b) ==> i == j && RESERVED <= b < |s.blockMap|)
    && (forall i :: Live(s, i) ==> Distinct(Owned(s.disk, InodeAt(s, i))))
    && (forall i: nat :: Live(s, i) <==> exists p :: Reaches(s, p, i))
    && (forall i, p, q :: Reaches(s, p, i) && Reaches(s, q, i) ==> p == q)
    && (forall i: nat :: Live(s, i) && i != ROOT ==> exists d :: NamedOnlyBy(s, d, i))
    && (forall d: nat :: LiveDir(s, d) ==> DotsLead(s, d))
  }

  /** Directory `d` holds every name of `i`, and there are as many as its link count says. */
  ghost predicate NamedOnlyBy(s: Fs, d: nat, i: nat) {
    && Holds(s, d, i) && InodeAt(s, i).linkCount == Links(Dir(s, d), Dots(d), i)
    && forall e :: Holds(s, e, i) ==> e == d
  }

  ghost predicate DotsLead(s: Fs, d: nat) {
    var l := Dir(s, d);
    && Shaped(l) && Dots(d) <= l.numEntry
    && CStr(l.slots[0].name) == DOT && l.slots[0].inode == d
    && (d != ROOT ==> CStr(l.slots[1].name) == DOTDOT && Holds(s, l.slots[1].inode, d))
  }

  lemma DirectoriesLead(s: Fs, g: Tree, d: nat)
    requires InvBy(s, g) && LiveDir(s, d)
    ensures DotsLead(s, d)
  {
    hide OwnersRight, BlocksRight, FilesRight, LinksRight, Sized, Holds, CStr, EntriesRight;
    assert DirRight(s, g, d);
    if d != ROOT { AboveNames(s, g, d); }
  }

  lemma OneDirectoryNames(s: Fs, g: Tree, i: nat)
    requires InvBy(s, g) && Live(s, i) && i != ROOT
    ensures i in g.up && NamedOnlyBy(s, g.up[i], i)
  {
    hide OwnersRight, BlocksRight, FilesRight, DirsRight, Sized, Holds;
    assert LinkRight(s, g, i);
    AboveNames(s, g, i);
    forall e | Holds(s, e, i) ensures e == g.up[i] {
      NamedIsBelow(s, g, e, i);
    }
  }

  ghost predicate Owns(s: Fs, i: nat, b: int) {
    Live(s, i) && b in Owned(s.disk, InodeAt(s, i))
  }

  lemma BlocksAreOwned(s: Fs, g: Tree)
    requires InvBy(s, g)
    ensures forall b :: 0 <= b < |s.blockMap| ==> (s.blockMap[b] <==> b < RESERVED || exists i :: Owns(s, i, b))
    ensures forall i, j, b :: Owns(s, i, b) && Owns(s, j, b) ==> i == j && RESERVED <= b < |s.blockMap|
    ensures forall i :: Live(s, i) ==> Distinct(Owned(s.disk, InodeAt(s, i)))
  {
    hide FilesRight, DirsRight, LinksRight, Owned, Sized;
    assert forall i, b :: Owns(s, i, b) ==> b in g.owner && g.owner[b] == i;
    forall b | b in g.owner ensures Owns(s, g.owner[b], b) {}
  }

  lemma {:induction false} InvIsSound(s: Fs)
    requires Inv(s)
    ensures Sound(s)
  {
    hide OwnersRight, BlocksRight, FilesRight, DirsRight, LinksRight, Path, Live, Owns, NamedOnlyBy, DotsLead;
    var g :| InvBy(s, g);
    forall i: nat | Live(s, i) && i != ROOT ensures exists d :: NamedOnlyBy(s, d, i) {
      OneDirectoryNames(s, g, i);
    }
    forall d: nat | LiveDir(s, d) ensures DotsLead(s, d) {
      DirectoriesLead(s, g, d);
    }
    BlocksAreOwned(s, g);
    forall i: nat ensures Live(s, i) <==> exists p :: Reaches(s, p, i) {
      if Live(s, i) {
        if i != ROOT { AboveNames(s, g, i); }
        var p := LiveIsReachable(s, g, i);
      }
      if p :| Reaches(s, p, i) { ReachableIsLive(s, g, p); }
    }
    forall i, p, q | Reaches(s, p, i) && Reaches(s, q, i) ensures p == q {
      assert Path(s, p) && Path(s, q);
      OneWay(s, g, p, q);
    }
  }

  // ---- whole runs ----

  /** A sequence of commands each of which the program may be given in the state it meets. */
  ghost predicate Legal(s: Fs, cs: seq<Command>)
    requires Inv(s)
    decreases |cs|
  {
    cs == [] || (Admissible(s, cs[0]) && Legal(Execute(s, cs[0]).0, cs[1..]))
  }

  ghost function RunAll(s: Fs, cs: seq<Command>): (t: Fs)
    requires Inv(s) && Legal(s, cs)
    ensures Inv(t)
    decreases |cs|
  {
    if cs == [] then s else RunAll(Execute(s, cs[0]).0, cs[1..])
  }

  lemma LegalStep(s: Fs, cs: seq<Command>)
    requires Inv(s) && Legal(s, cs) && cs != []
    ensures Admissible(s, cs[0]) && CopyReady(s, cs[0]) && Execute(s, cs[0]) == Effect(s, cs[0])
    ensures Plain(s, cs[0]) && Legal(Execute(s, cs[0]).0, cs[1..])
  {
    hide Inv, Effect;
    CopyIsReady(s, cs[0]);
  }

  /**
   Safety over any session: from a freshly formatted disk, after any commands, nothing has leaked and
   nothing is shared.
   */
  lemma {:induction false} SessionsAreSound(z: Fs, cs: seq<Command>)
    requires Memory(z) && Blank(z)
    ensures Inv(Format(z))
    ensures Legal(Format(z), cs) ==> Inv(RunAll(Format(z), cs)) && Sound(RunAll(Format(z), cs))
  {
    hide Inv, Format, Blank, Sound;
    FormatIff(z);
    if Legal(Format(z), cs) {
      InvIsSound(RunAll(Format(z), cs));
    }
  }
}
