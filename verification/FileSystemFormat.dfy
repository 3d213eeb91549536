/** Formatting: what mounting does when there is no disk image to load. */
module FileSystemFormat {
  import opened Sequences
  import opened FileSystemModel
  import opened FileSystemInvariant
  import opened FileSystemGrowth

  // ---- the initialisation loops, which stop at an eighth of each bitmap ----

  function ClearedInodes(m: seq<bool>): (r: seq<bool>)
    ensures |r| == |m|
    ensures forall i :: 0 <= i < |m| ==> r[i] == if i < |m| / 8 then false else m[i]
  {
    seq(|m|, i requires 0 <= i < |m| => if i < |m| / 8 then false else m[i])
  }

  function ReservedBlocks(m: seq<bool>): (r: seq<bool>)
    ensures |r| == |m|
    ensures forall b :: 0 <= b < |m| ==> r[b] == if b < |m| / 8 then b < RESERVED else m[b]
  {
    seq(|m|, b requires 0 <= b < |m| => if b < |m| / 8 then b < RESERVED else m[b])
  }

  /** Memory of the right size, holding anything: an eighth of the block bitmap covers the reserved blocks. */
  predicate Memory(z: Fs) {
    Shaped(z.cur) && 8 <= |z.inodeMap| == |z.inodes| && 8 * RESERVED <= |z.blockMap| == |z.disk|
  }

  /** The formatting branch of `fs_mount`, over whatever memory held before. */
  function Format(z: Fs): Fs
    requires Memory(z)
  {
    var im, bm := ClearedInodes(z.inodeMap), ReservedBlocks(z.blockMap);
    var i, b := FirstFree(im, 0), FirstFree(bm, 0);
    var cur := Dentry(1, z.cur.slots[0 := Entry(Written(z.cur.slots[0].name, DOT), if i >= 0 then i else 0)]);
    Fs(Put(im, i, true), Put(bm, b, true),
       |im| - (if i >= 0 then 1 else 0), |bm| - RESERVED - (if b >= 0 then 1 else 0),
       if i >= 0 then z.inodes[i := z.inodes[i].(kind := Directory, size := 1, blockCount := 1, direct := [b])]
         else z.inodes,
       Put(z.disk, b, Listing(cur)), cur, b)
  }

  /** What the program relies on memory to be: nothing set beyond the first eighth, and no links to the root. */
  predicate Blank(z: Fs)
    requires Memory(z)
  {
    && (forall i :: |z.inodeMap| / 8 <= i < |z.inodeMap| ==> !z.inodeMap[i])
    && (forall b :: |z.blockMap| / 8 <= b < |z.blockMap| ==> !z.blockMap[b])
    && z.inodes[ROOT].linkCount == 0
  }

  const EMPTY_TREE := Tree(map[], map[ROOT := 0], map[RESERVED as int := ROOT], ROOT)

  /** The root is the first inode and its block the first beyond the reserved ones. */
  lemma BlankMaps(z: Fs)
    requires Memory(z) && Blank(z)
    ensures Sized(Format(z)) && Format(z).curBlock == RESERVED
    ensures var s := Format(z);
            && (forall i :: Live(s, i) <==> i == ROOT)
            && (forall b :: 0 <= b < |s.blockMap| ==> (s.blockMap[b] <==> b <= RESERVED))
            && s.inodes[ROOT] == z.inodes[ROOT].(kind := Directory, size := 1, blockCount := 1,
               direct := [RESERVED as int])
  {
    var im, bm := ClearedInodes(z.inodeMap), ReservedBlocks(z.blockMap);
    assert !im[ROOT] && !bm[RESERVED];
    assert FirstFree(im, 0) == ROOT && FirstFree(bm, 0) == RESERVED;
    CountFalseAll(im);
    CountFalseUpdate(im, ROOT, true);
    ReservedCount(bm);
    CountFalseAll(bm[RESERVED..]);
    CountFalseUpdate(bm, RESERVED, true);
  }

  /** On blank memory the result is the root directory alone. */
  lemma BlankFormat(z: Fs)
    requires Memory(z) && Blank(z)
    ensures InvBy(Format(z), EMPTY_TREE)
  {
    hide CStr, Sized, ClearedInodes, ReservedBlocks, FirstFree, Written, Blank;
    var s := Format(z);
    BlankMaps(z);
    BlankRoot(z);
    CStrWritten(z.cur.slots[0].name, DOT);
    WrittenLength(z.cur.slots[0].name, DOT);
    assert Owned(s.disk, InodeAt(s, ROOT)) == [RESERVED as int];
    assert Dir(s, ROOT) == s.cur;
  }

  lemma BlankRoot(z: Fs)
    requires Memory(z) && Blank(z)
    ensures z.inodes[ROOT].linkCount == 0 && FirstFree(ClearedInodes(z.inodeMap), 0) == ROOT &&
            |Format(z).disk| == |z.disk|
  {
    assert !ClearedInodes(z.inodeMap)[ROOT];
  }

  lemma WrittenLength(buf: seq<char>, name: seq<char>)
    requires |name| < |buf|
    ensures |Written(buf, name)| == |buf|
  {
  }

  lemma ReservedCount(bm: seq<bool>)
    requires |bm| >= RESERVED && forall b :: 0 <= b < RESERVED ==> bm[b]
    ensures CountFalse(bm) == CountFalse(bm[RESERVED..])
  {
    CountFalseSplit(bm, RESERVED);
    CountFalsePositive(bm[..RESERVED]);
  }

  /** Formatting establishes the invariant exactly on blank memory. */
  lemma {:induction false} FormatIff(z: Fs)
    requires Memory(z)
    ensures Inv(Format(z)) <==> Blank(z)
  {
    hide OwnersRight, BlocksRight, FilesRight, DirsRight, LinksRight, HereRight;
    if Blank(z) {
      BlankFormat(z);
    }
    if Inv(Format(z)) {
      var g :| InvBy(Format(z), g);
      var im, bm := ClearedInodes(z.inodeMap), ReservedBlocks(z.blockMap);
      assert FirstFree(im, 0) == 0;
      CountFalseUpdate(im, 0, true);
      CountFalseAll(im);
      FirstFreeSucceeds(bm);
      CountFalseUpdate(bm, FirstFree(bm, 0), true);
      ReservedCount(bm);
      CountFalseAll(bm[RESERVED..]);
      forall i | |im| / 8 <= i < |im| ensures !z.inodeMap[i] {
        assert !im[i];
      }
      forall b | |bm| / 8 <= b < |bm| ensures !z.blockMap[b] {
        assert bm[RESERVED..][b - RESERVED] == z.blockMap[b];
      }
    }
  }
}
