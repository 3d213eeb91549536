/** Facts about sequences, counting and remainders that several components share. */
module Sequences {

  predicate Distinct<T(==)>(s: seq<T>) {
    forall i, j :: 0 <= i < j < |s| ==> s[i] != s[j]
  }

  /** The sequence with `x` at position `i`; a position out of range is ignored. */
  function Put<T>(s: seq<T>, i: int, x: T): (r: seq<T>)
    ensures |r| == |s|
  {
    if 0 <= i < |s| then s[i := x] else s
  }

  /** The slot `d` places on from `k` in a ring of `n`. */
  function Slot(k: nat, d: nat, n: nat): (i: nat)
    requires k < n && d <= n
    ensures i < n
  {
    if k + d < n then k + d else k + d - n
  }

  /** The sequence without the first occurrence of `x` (all of it when `x` is absent). */
  function Without<T(==)>(s: seq<T>, x: T): (r: seq<T>)
    ensures |r| == if x in s then |s| - 1 else |s|
  {
    if s == [] then []
    else if s[0] == x then s[1..]
    else [s[0]] + Without(s[1..], x)
  }

  /** Removing an element cuts its first position out. */
  lemma {:induction false} WithoutAt<T>(s: seq<T>, k: nat)
    requires k < |s| && s[k] !in s[..k]
    ensures Without(s, s[k]) == s[..k] + s[k + 1..]
  {
    if k > 0 {
      assert s[0] in s[..k];
      forall x | x in s[1..][..k - 1] ensures x in s[..k] {}
      WithoutAt(s[1..], k - 1);
      assert s[..k] == [s[0]] + s[1..][..k - 1];
      assert s[1..][k..] == s[k + 1..];
    }
  }

  lemma {:induction false} WithoutAbsent<T>(s: seq<T>, x: T)
    requires x !in s
    ensures Without(s, x) == s
  {
    if s != [] {
      WithoutAbsent(s[1..], x);
      assert s == [s[0]] + s[1..];
    }
  }

  /** The sequence without position `k`. */
  lemma CutFacts<T>(s: seq<T>, k: nat)
    requires Distinct(s) && k < |s|
    ensures var r := s[..k] + s[k + 1..]; Distinct(r) && forall y :: y in r <==> y in s && y != s[k]
  {
    var r := s[..k] + s[k + 1..];
    assert forall i :: 0 <= i < |r| ==> r[i] == s[if i < k then i else i + 1];
    forall y | y in s && y != s[k] ensures y in r {
      var i :| 0 <= i < |s| && s[i] == y;
      assert r[if i < k then i else i - 1] == y;
    }
  }

  /** Removing an element of a duplicate-free sequence keeps all the others, and no duplicates appear. */
  lemma WithoutDistinct<T>(s: seq<T>, x: T)
    requires Distinct(s)
    ensures Distinct(Without(s, x))
    ensures forall y :: y in Without(s, x) <==> y in s && y != x
  {
    if x in s {
      var k :| 0 <= k < |s| && s[k] == x;
      WithoutAt(s, k);
      CutFacts(s, k);
    } else {
      WithoutAbsent(s, x);
    }
  }

  /** How many positions of a bitmap are clear. */
  function CountFalse(s: seq<bool>): (n: nat)
    ensures n <= |s|
  {
    if s == [] then 0 else (if s[0] then 0 else 1) + CountFalse(s[1..])
  }

  lemma {:induction false} CountFalseUpdate(s: seq<bool>, k: nat, b: bool)
    requires k < |s|
    ensures CountFalse(s[k := b]) == CountFalse(s) + (if s[k] then 1 else 0) - (if b then 1 else 0)
  {
    if k == 0 {
      assert s[0 := b][1..] == s[1..];
    } else {
      assert s[k := b][1..] == s[1..][k - 1 := b];
      CountFalseUpdate(s[1..], k - 1, b);
    }
  }

  lemma {:induction false} CountFalseAppend(s: seq<bool>, b: bool)
    ensures CountFalse(s + [b]) == CountFalse(s) + (if b then 0 else 1)
  {
    if s != [] {
      assert (s + [b])[1..] == s[1..] + [b];
      CountFalseAppend(s[1..], b);
    }
  }

  /** A clear position exists exactly when the count is positive. */
  lemma {:induction false} CountFalsePositive(s: seq<bool>)
    ensures CountFalse(s) > 0 <==> exists k :: 0 <= k < |s| && !s[k]
  {
    if s != [] {
      CountFalsePositive(s[1..]);
      if CountFalse(s[1..]) > 0 {
        var k :| 0 <= k < |s[1..]| && !s[1..][k];
        assert !s[k + 1];
      }
      if k :| 0 <= k < |s| && !s[k] {
        if k > 0 { assert !s[1..][k - 1]; }
      }
    }
  }

  lemma {:induction false} CountFalseSplit(s: seq<bool>, k: nat)
    requires k <= |s|
    ensures CountFalse(s) == CountFalse(s[..k]) + CountFalse(s[k..])
  {
    if k == 0 {
      assert s[0..] == s;
    } else {
      CountFalseSplit(s[1..], k - 1);
      assert s[..k][1..] == s[1..][..k - 1];
    }
  }

  /** A bitmap has as many clear bits as bits exactly when nothing is set. */
  lemma {:induction false} CountFalseAll(s: seq<bool>)
    ensures CountFalse(s) == |s| <==> forall k :: 0 <= k < |s| ==> !s[k]
  {
    if s != [] {
      CountFalseAll(s[1..]);
      if CountFalse(s) == |s| {
        forall k | 0 <= k < |s| ensures !s[k] {
          if k > 0 { assert !s[1..][k - 1]; }
        }
      }
    }
  }

  lemma MultipleOf(d: int, n: nat)
    ensures d > 0 ==> d * n >= n
    ensures d < 0 ==> d * n + n <= 0
  {
    if d > 0 { assert (d - 1) * n >= 0; }
    if d < 0 { assert (-d - 1) * n == -(d * n) - n >= 0; }
  }

  lemma ModuloUnique(x: nat, n: nat, q: nat, r: nat)
    requires n > 0 && r < n && x == q * n + r
    ensures x % n == r && x / n == q
  {
    var d := x / n - q;
    assert d * n == (x / n) * n - q * n == r - x % n;
    MultipleOf(d, n);
  }

  /** One step round a ring of `n` slots. */
  lemma NextModulo(k: nat, n: nat)
    requires n > 0
    ensures (k + 1) % n == (if k % n + 1 == n then 0 else k % n + 1)
    ensures (k % n + 1) % n == (k + 1) % n
  {
    var q, r := k / n, k % n;
    assert k == q * n + r;
    if r + 1 == n {
      assert k + 1 == (q + 1) * n + 0;
      ModuloUnique(k + 1, n, q + 1, 0);
      ModuloUnique(r + 1, n, 1, 0);
    } else {
      ModuloUnique(k + 1, n, q, r + 1);
      ModuloUnique(r + 1, n, 0, r + 1);
    }
  }

  /** Two numbers less than `n` apart share a ring slot only when they are equal. */
  lemma ModuloInjective(a: nat, b: nat, n: nat)
    requires n > 0 && a <= b < a + n
    requires a % n == b % n
    ensures a == b
  {
    var d := b / n - a / n;
    assert d * n == (b / n) * n - (a / n) * n == b - a;
    MultipleOf(d, n);
  }
}
