/**
 Matrix multiplication by one child process per row, with crash recovery: the parent waits for
 its children in the order of an array and compacts the rows of the crashed ones into the front
 of the very array it is scanning.
 */
module MatrixMultiply {

  // ---- products ----

  /** Row `i` of `a` times column `j` of `b`, over the first `k` terms. */
  ghost function Cell(a: array2<int>, b: array2<int>, i: nat, j: nat, k: nat): int
    reads a, b
    requires i < a.Length0 && j < b.Length1 && k <= a.Length1 && k <= b.Length0
  {
    if k == 0 then 0 else Cell(a, b, i, j, k - 1) + a[i, k - 1] * b[k - 1, j]
  }

  /** Row `i` of `a` times row `j` of `t`, over the first `k` terms. */
  ghost function Dot(a: array2<int>, i: nat, t: array2<int>, j: nat, k: nat): int
    reads a, t
    requires i < a.Length0 && j < t.Length0 && k <= a.Length1 && k <= t.Length1
  {
    if k == 0 then 0 else Dot(a, i, t, j, k - 1) + a[i, k - 1] * t[j, k - 1]
  }

  ghost predicate IsTranspose(t: array2<int>, b: array2<int>)
    reads t, b
  {
    && t.Length0 == b.Length1 && t.Length1 == b.Length0
    && forall i, j :: 0 <= i < b.Length0 && 0 <= j < b.Length1 ==> t[j, i] == b[i, j]
  }

  lemma {:induction false} DotIsCell(a: array2<int>, b: array2<int>, t: array2<int>, i: nat, j: nat, k: nat)
    requires IsTranspose(t, b) && a.Length1 == b.Length0
    requires i < a.Length0 && j < b.Length1 && k <= b.Length0
    ensures Dot(a, i, t, j, k) == Cell(a, b, i, j, k)
  {
    if k > 0 {
      DotIsCell(a, b, t, i, j, k - 1);
    }
  }

  /** `matrix_tranpose` */
  method Transpose(b: array2<int>, t: array2<int>)
    requires t.Length0 == b.Length1 && t.Length1 == b.Length0 && t != b
    modifies t
    ensures IsTranspose(t, b)
  {
    for i := 0 to b.Length0
      invariant forall x, j :: 0 <= x < i && 0 <= j < b.Length1 ==> t[j, x] == b[x, j]
    {
      for j := 0 to b.Length1
        invariant forall x, y :: 0 <= x < i && 0 <= y < b.Length1 ==> t[y, x] == b[x, y]
        invariant forall y :: 0 <= y < j ==> t[y, i] == b[i, y]
      {
        t[j, i] := b[i, j];
      }
    }
  }

  /** `linear_mult` on row `i` of `a` and row `j` of `t` */
  method LinearMult(a: array2<int>, i: nat, t: array2<int>, j: nat) returns (r: int)
    requires i < a.Length0 && j < t.Length0 && a.Length1 == t.Length1
    ensures r == Dot(a, i, t, j, a.Length1)
  {
    r := 0;
    for k := 0 to a.Length1
      invariant r == Dot(a, i, t, j, k)
    {
      r := r + a[i, k] * t[j, k];
    }
  }

  /** Row `i` of `c` holds row `i` of the product, as computed through the transpose. */
  ghost predicate RowDone(a: array2<int>, t: array2<int>, c: array2<int>, i: nat)
    reads a, t, c
    requires i < a.Length0 == c.Length0 && t.Length0 == c.Length1 && a.Length1 == t.Length1
  {
    forall j :: 0 <= j < c.Length1 ==> c[i, j] == Dot(a, i, t, j, a.Length1)
  }

  /** `serial_mat_mult` */
  method SerialMatMult(a: array2<int>, t: array2<int>, c: array2<int>)
    requires a.Length0 == c.Length0 && t.Length0 == c.Length1 && a.Length1 == t.Length1 && c != a && c != t
    modifies c
    ensures forall i :: 0 <= i < c.Length0 ==> RowDone(a, t, c, i)
  {
    for i := 0 to c.Length0
      invariant forall x, y :: 0 <= x < i && 0 <= y < c.Length1 ==> c[x, y] == Dot(a, x, t, y, a.Length1)
    {
      for j := 0 to c.Length1
        invariant forall x, y :: 0 <= x < i && 0 <= y < c.Length1 ==> c[x, y] == Dot(a, x, t, y, a.Length1)
        invariant forall y :: 0 <= y < j ==> c[i, y] == Dot(a, i, t, y, a.Length1)
      {
        c[i, j] := LinearMult(a, i, t, j);
      }
    }
  }

  // ---- processes and pipes ----

  /** A child process, by the row it was forked to compute. */
  datatype Process = Process(row: nat)

  /** Whether the child that wait number `t` is for has crashed. */
  predicate CrashedAt(crashes: seq<bool>, t: nat) {
    t < |crashes| && crashes[t]
  }

  /** How many of the first `t` waits found a crashed child. */
  function Crashes(crashes: seq<bool>, t: nat): nat {
    if t == 0 then 0 else Crashes(crashes, t - 1) + if CrashedAt(crashes, t - 1) then 1 else 0
  }

  /** The numbers a child writes for row `i`. */
  ghost function RowOf(a: array2<int>, t: array2<int>, i: nat, n: nat): (r: seq<int>)
    reads a, t
    requires i < a.Length0 && a.Length1 == t.Length1 && n <= t.Length0
    ensures |r| == n && forall j :: 0 <= j < n ==> r[j] == Dot(a, i, t, j, a.Length1)
  {
    if n == 0 then [] else RowOf(a, t, i, n - 1) + [Dot(a, i, t, n - 1, a.Length1)]
  }

  /** `child_process_core`: a child crashes before its first write or writes its whole row. */
  method ChildProcess(a: array2<int>, t: array2<int>, i: nat, pipes: array<seq<int>>, crash: bool)
    requires i < a.Length0 == pipes.Length && a.Length1 == t.Length1
    modifies pipes
    ensures pipes[..] == if crash then old(pipes[..])
            else old(pipes[..])[i := old(pipes[i]) + RowOf(a, t, i, t.Length0)]
  {
    if crash {
      return;
    }
    for j := 0 to t.Length0
      invariant pipes[i] == old(pipes[i]) + RowOf(a, t, i, j)
      invariant forall x :: 0 <= x < pipes.Length && x != i ==> pipes[x] == old(pipes[x])
    {
      var temp := LinearMult(a, i, t, j);
      pipes[i] := pipes[i] + [temp];
    }
  }

  /** The rows not yet collected: those of children forked again, then those not yet waited for in this round. */
  function Outstanding(pidToPipe: seq<nat>, failP: int, j: int, end: int): seq<nat>
    requires 0 <= failP <= j <= end + 1 <= |pidToPipe|
  {
    pidToPipe[..failP] + pidToPipe[j..end + 1]
  }

  function AllRows(m: nat): (r: seq<nat>)
    ensures |r| == m && forall i :: 0 <= i < m ==> r[i] == i
  {
    if m == 0 then [] else AllRows(m - 1) + [m - 1]
  }

  /** The rows below `m` are shared out between the two sequences, each once. */
  ghost predicate Partition(m: nat, open: seq<nat>, collected: seq<nat>) {
    multiset(open) + multiset(collected) == multiset(AllRows(m))
  }

  lemma PartitionMembers(m: nat, open: seq<nat>, collected: seq<nat>)
    requires Partition(m, open, collected)
    ensures forall i :: i in open || i in collected <==> 0 <= i < m
    ensures |open| + |collected| == m
  {
    forall i ensures i in open || i in collected <==> 0 <= i < m {
      assert i in multiset(AllRows(m)) <==> i in AllRows(m);
      assert i in multiset(open) + multiset(collected) <==> i in open || i in collected;
      if 0 <= i < m { assert AllRows(m)[i] == i; }
    }
    assert |multiset(open) + multiset(collected)| == |multiset(AllRows(m))|;
  }

  lemma PartitionStart(m: nat, open: seq<nat>)
    requires |open| == m && forall i :: 0 <= i < m ==> open[i] == i
    ensures Partition(m, open, [])
  {
    assert open == AllRows(m);
  }

  /** A collected row leaves its place among the outstanding ones. */
  lemma Collect(m: nat, before: seq<nat>, row: nat, after: seq<nat>, collected: seq<nat>)
    requires Partition(m, before + ([row] + after), collected)
    ensures Partition(m, before + after, collected + [row])
  {
  }

  // ---- the parent ----

  /** Each slot before `failP`, and each from `j` to `end`, holds a child forked for the row it is mapped to. */
  ghost predicate Mapped(pid: seq<Process>, pidToPipe: seq<nat>, failP: int, j: int, end: int) {
    && |pid| == |pidToPipe|
    && 0 <= failP <= j <= end + 1 <= |pid|
    && forall k :: 0 <= k < failP || j <= k <= end ==> pid[k].row == pidToPipe[k]
  }

  /** The parent between two waits: the slots are mapped, and name the rows not collected yet. */
  ghost predicate Scanning(m: nat, pid: seq<Process>, pidToPipe: seq<nat>, failP: int, j: int, end: int,
          collected: seq<nat>) {
    Mapped(pid, pidToPipe, failP, j, end) && Partition(m, Outstanding(pidToPipe, failP, j, end), collected)
  }

  /** The collected rows are in the result. */
  ghost predicate AllDone(a: array2<int>, t: array2<int>, c: array2<int>, collected: seq<nat>)
    reads a, t, c
    requires a.Length0 == c.Length0 && t.Length0 == c.Length1 && a.Length1 == t.Length1
  {
    forall i :: i in collected ==> 0 <= i < c.Length0 && RowDone(a, t, c, i)
  }

  /** A child of the parent's round that has exited: its row is read from its pipe and copied out. */
  method ReadRow(a: array2<int>, t: array2<int>, c: array2<int>, pipes: array<seq<int>>, index: nat,
          ghost collected: seq<nat>)
    requires a.Length0 == c.Length0 == pipes.Length && t.Length0 == c.Length1 && a.Length1 == t.Length1 &&
             c != a && c != t
    requires index < c.Length0 && pipes[index] == RowOf(a, t, index, t.Length0)
    requires AllDone(a, t, c, collected)
    modifies c, pipes
    ensures pipes[..] == old(pipes[..])[index := []] && AllDone(a, t, c, collected + [index])
  {
    var buf := pipes[index][..c.Length1];
    pipes[index] := pipes[index][c.Length1..];
    for k := 0 to c.Length1
      modifies c
      invariant forall x :: 0 <= x < k ==> c[index, x] == buf[x]
      invariant forall i, x :: 0 <= i < c.Length0 && 0 <= x < c.Length1 && i != index ==> c[i, x] == old(c[i, x])
    {
      c[index, k] := buf[k];
    }
    forall i | i in collected + [index] ensures 0 <= i < c.Length0 && RowDone(a, t, c, i) {
      if i != index { assert i in collected && old(RowDone(a, t, c, i)); }
    }
  }

  /** A crashed child's row is forked again, in slot `failP`. */
  method Refork(pid: array<Process>, pidToPipe: array<nat>, failP: nat, index: nat)
    requires failP < pid.Length == pidToPipe.Length
    modifies pid, pidToPipe
    ensures pid[..] == old(pid[..])[failP := Process(index)] && pidToPipe[..] == old(pidToPipe[..])[failP := index]
  {
    pidToPipe[failP] := index;
    pid[failP] := Process(index);
  }

  /** Waiting for the child at `j` collects its row, or moves it to slot `failP`; the other slots keep theirs. */
  lemma ScanStep(m: nat, pid: seq<Process>, pidToPipe: seq<nat>, failP: int, j: int, end: int, collected: seq<nat>)
    requires Scanning(m, pid, pidToPipe, failP, j, end, collected) && j <= end
    ensures 0 <= pidToPipe[j] < m && pid[j].row == pidToPipe[j]
    ensures Scanning(m, pid, pidToPipe, failP, j + 1, end, collected + [pidToPipe[j]])
    ensures Scanning(m, pid[failP := Process(pidToPipe[j])], pidToPipe[failP := pidToPipe[j]], failP + 1, j + 1,
            end, collected)
  {
    var index := pidToPipe[j];
    var open := Outstanding(pidToPipe, failP, j, end);
    assert open == pidToPipe[..failP] + ([index] + pidToPipe[j + 1..end + 1]);
    assert index in open;
    PartitionMembers(m, open, collected);
    Collect(m, pidToPipe[..failP], index, pidToPipe[j + 1..end + 1], collected);
    assert Outstanding(pidToPipe[failP := index], failP + 1, j + 1, end) == open;
  }

  /** At the end of a round the children forked again, now in front, become the next round. */
  lemma NextRound(m: nat, pid: seq<Process>, pidToPipe: seq<nat>, failP: int, j: int, end: int, collected: seq<nat>)
    requires Scanning(m, pid, pidToPipe, failP, j, end, collected) && j == end + 1
    ensures Scanning(m, pid, pidToPipe, 0, 0, failP - 1, collected)
  {
    assert Outstanding(pidToPipe, 0, 0, failP - 1) == Outstanding(pidToPipe, failP, j, end);
  }

  /** The parent's first loop: a child, a pipe and a slot for every row. */
  method ForkAll(m: nat) returns (pid: array<Process>, pidToPipe: array<nat>, pipes: array<seq<int>>)
    ensures fresh(pid) && fresh(pidToPipe) && fresh(pipes) && pid.Length == pidToPipe.Length == pipes.Length == m
    ensures forall k :: 0 <= k < m ==> pidToPipe[k] == k && pid[k] == Process(k) && pipes[k] == []
  {
    pid, pidToPipe, pipes := new Process[m](_ => Process(0)), new nat[m], new seq<int>[m](_ => []);
    for i := 0 to m
      invariant forall k :: 0 <= k < i ==> pidToPipe[k] == k && pid[k] == Process(k)
      invariant forall k :: 0 <= k < m ==> pipes[k] == []
    {
      pidToPipe[i] := i;
      pid[i] := Process(i);
    }
  }

  /** One wait of the parent: for the child in slot `j`, which has crashed or has written its row. */
  method WaitFor(a: array2<int>, t: array2<int>, c: array2<int>, pid: array<Process>, pidToPipe: array<nat>,
          pipes: array<seq<int>>, failP: nat, j: nat, end: int, crashed: bool, ghost collected: seq<nat>)
    returns (ghost now: seq<nat>)
    requires a.Length0 == c.Length0 == pipes.Length && t.Length0 == c.Length1 && a.Length1 == t.Length1 &&
             c != a && c != t
    requires failP <= j <= end < pid.Length == pidToPipe.Length
    requires Scanning(c.Length0, pid[..], pidToPipe[..], failP, j, end, collected) && AllDone(a, t, c, collected)
    requires forall k :: 0 <= k < pipes.Length ==> pipes[k] == []
    modifies c, pid, pidToPipe, pipes
    ensures now == if crashed then collected else collected + [old(pidToPipe[j])]
    ensures Scanning(c.Length0, pid[..], pidToPipe[..], if crashed then failP + 1 else failP, j + 1, end, now)
    ensures AllDone(a, t, c, now)
    ensures forall k :: 0 <= k < pipes.Length ==> pipes[k] == []
  {
    hide Scanning, Dot, RowDone, AllDone;
    ScanStep(c.Length0, pid[..], pidToPipe[..], failP, j, end, collected);
    var index := pidToPipe[j];
    ChildProcess(a, t, pid[j].row, pipes, crashed);
    if !crashed {
      now := collected + [index];
      ReadRow(a, t, c, pipes, index, collected);
    } else {
      now := collected;
      Refork(pid, pidToPipe, failP, index);
    }
  }

  /**
   `parallel_mat_mult`, where wait number w finds a crashed child exactly when `crashes` says so.
   It waits once for each row and once more for each crash, and collects every row exactly once.
   */
  method ParallelMatMult(a: array2<int>, t: array2<int>, c: array2<int>, crashes: seq<bool>)
      returns (waits: nat, ghost collected: seq<nat>)
    requires a.Length0 == c.Length0 && t.Length0 == c.Length1 && a.Length1 == t.Length1 && c != a && c != t
    modifies c
    ensures forall i :: 0 <= i < c.Length0 ==> RowDone(a, t, c, i)
    ensures Partition(c.Length0, [], collected)
    ensures waits == c.Length0 + Crashes(crashes, waits)
  {
    hide Scanning, Partition, Cell, Dot, RowDone, AllDone;
    var m := c.Length0;
    var pid, pidToPipe, pipes := ForkAll(m);
    var procLeft, end, failP, j := m, m - 1, 0, 0;
    waits, collected := 0, [];
    ScanStart(m, a, t, c, pid[..], pidToPipe[..]);
    while procLeft != 0
      invariant 0 <= failP <= j <= end + 1 <= m && procLeft == failP + (end + 1 - j) && (procLeft > 0 ==> j <= end)
      invariant Scanning(m, pid[..], pidToPipe[..], failP, j, end, collected)
      invariant waits == m - procLeft + Crashes(crashes, waits)
      invariant forall k :: 0 <= k < m ==> pipes[k] == []
      invariant AllDone(a, t, c, collected)
      decreases if waits < |crashes| then |crashes| - waits else 0, procLeft
    {
      var crashed := CrashedAt(crashes, waits);
      waits := waits + 1;
      collected := WaitFor(a, t, c, pid, pidToPipe, pipes, failP, j, end, crashed, collected);
      if !crashed {
        procLeft := procLeft - 1;
      } else {
        failP := failP + 1;
      }
      if j == end {
        NextRound(m, pid[..], pidToPipe[..], failP, j + 1, end, collected);
        j := 0;
        end := procLeft - 1;
        failP := 0;
      } else {
        j := j + 1;
      }
    }
    ScanEnd(a, t, c, pid[..], pidToPipe[..], failP, j, end, collected);
  }

  lemma ScanStart(m: nat, a: array2<int>, t: array2<int>, c: array2<int>, pid: seq<Process>, pidToPipe: seq<nat>)
    requires a.Length0 == c.Length0 && t.Length0 == c.Length1 && a.Length1 == t.Length1
    requires |pid| == |pidToPipe| == m && forall k :: 0 <= k < m ==> pidToPipe[k] == k && pid[k] == Process(k)
    ensures Scanning(m, pid, pidToPipe, 0, 0, m - 1, []) && AllDone(a, t, c, [])
  {
    PartitionStart(m, Outstanding(pidToPipe, 0, 0, m - 1));
  }

  lemma ScanEnd(a: array2<int>, t: array2<int>, c: array2<int>, pid: seq<Process>, pidToPipe: seq<nat>, failP: int,
          j: int, end: int, collected: seq<nat>)
    requires a.Length0 == c.Length0 && t.Length0 == c.Length1 && a.Length1 == t.Length1
    requires Scanning(c.Length0, pid, pidToPipe, failP, j, end, collected) && failP + (end + 1 - j) == 0
    requires AllDone(a, t, c, collected)
    ensures Partition(c.Length0, [], collected)
    ensures forall i :: 0 <= i < c.Length0 ==> RowDone(a, t, c, i)
  {
    assert Outstanding(pidToPipe, failP, j, end) == [];
    PartitionMembers(c.Length0, [], collected);
  }

  /** The parallel result is the serial one, and both are the product of the two matrices. */
  lemma {:induction false} RowsAreProduct(a: array2<int>, b: array2<int>, t: array2<int>, c: array2<int>,
          d: array2<int>)
    requires IsTranspose(t, b) && a.Length1 == b.Length0
    requires c.Length0 == d.Length0 == a.Length0 && c.Length1 == d.Length1 == t.Length0
    requires forall i :: 0 <= i < c.Length0 ==> RowDone(a, t, c, i) && RowDone(a, t, d, i)
    ensures forall i, j :: 0 <= i < c.Length0 && 0 <= j < c.Length1 ==>
            c[i, j] == d[i, j] == Cell(a, b, i, j, a.Length1)
  {
    forall i, j | 0 <= i < c.Length0 && 0 <= j < c.Length1 ensures c[i, j] == d[i, j] == Cell(a, b, i, j, a.Length1) {
      assert RowDone(a, t, c, i) && RowDone(a, t, d, i);
      DotIsCell(a, b, t, i, j, a.Length1);
    }
  }

  /** `main`: the serial and the parallel result agree, whatever children crash, and are the product of the matrices. */
  method MultiplyBothWays(a: array2<int>, b: array2<int>, crashes: seq<bool>)
    returns (serial: array2<int>, parallel: array2<int>)
    requires a.Length1 == b.Length0
    ensures serial.Length0 == parallel.Length0 == a.Length0 && serial.Length1 == parallel.Length1 == b.Length1
    ensures forall i, j :: 0 <= i < a.Length0 && 0 <= j < b.Length1 ==>
            serial[i, j] == parallel[i, j] == Cell(a, b, i, j, a.Length1)
  {
    hide Cell, Dot;
    var t := new int[b.Length1, b.Length0];
    Transpose(b, t);
    serial := new int[a.Length0, b.Length1];
    parallel := new int[a.Length0, b.Length1];
    SerialMatMult(a, t, serial);
    var waits;
    ghost var collected;
    waits, collected := ParallelMatMult(a, t, parallel, crashes);
    RowsAreProduct(a, b, t, serial, parallel);
  }
}
