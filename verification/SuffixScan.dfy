/** The two maximal-suffix loops of the two-way search, with their correctness. */
module SuffixScan {
  import opened Octets
  import opened Periodicity

  /** Suffix `t` differs from suffix `c` at a position of `x[t..e]`, and is the smaller one there. */
  ghost predicate Beaten(x: seq<int>, rev: bool, t: nat, c: nat, e: nat)
    requires t <= |x| && c <= |x|
  {
    var m := Ext(x, t, c);
    t + m < e <= |x| && c + m < |x| && Before(rev, x[t + m], x[c + m])
  }

  /** Within `x[c..e]` every proper suffix loses to the whole (a Lyndon word for the opposite order). */
  ghost predicate LyndonOn(x: seq<int>, rev: bool, c: nat, e: nat) {
    c < e <= |x| && forall t: nat :: c < t < e ==> Beaten(x, rev, t, c, e)
  }

  lemma BeatenIsLess(x: seq<int>, rev: bool, t: nat, c: nat, e: nat)
    requires t <= |x| && c <= |x| && Beaten(x, rev, t, c, e)
    ensures Less(x, rev, t, c) && !Less(x, rev, c, t)
  {
    ExtSymmetric(x, t, c);
  }

  /** A copy of `x[t..e]` loses where the original lost. */
  lemma BeatenCopy(x: seq<int>, rev: bool, t: nat, c: nat, e: nat, d: nat)
    requires t <= |x| && c <= |x| && Beaten(x, rev, t, c, e)
    requires e + d <= |x| && Repeats(x, t, e, d)
    ensures Beaten(x, rev, t + d, c, e + d)
  {
    var m := Ext(x, t, c);
    assert Same(x, t + m, d);
    var b := c - (t + d);
    forall u | t + d <= u < t + d + m ensures Same(x, u, b) {
      assert Same(x, u - d, d) && Same(x, u - d, c - t);
    }
    ExtUnique(x, t + d, c, m);
  }

  /** A letter that breaks the period downwards turns the whole stretch into one Lyndon word. */
  lemma LyndonGrows(x: seq<int>, rev: bool, c: nat, p: nat, n: nat, t: nat)
    requires LyndonOn(x, rev, c, c + p) && c + p <= n < |x| && PeriodOn(x, c, n, p)
    requires Before(rev, x[n], x[n - p])
    requires c < t <= n
    ensures Beaten(x, rev, t, c, n + 1)
    decreases t
  {
    if t < c + p {
      assert Beaten(x, rev, t, c, c + p);
    } else {
      var u := t - p;
      if u > c {
        LyndonGrows(x, rev, c, p, n, u);
      } else {
        assert forall v :: c <= v < |x| ==> Same(x, v, 0);
        ExtUnique(x, u, c, |x| - c);
      }
      var e := Ext(x, u, c);
      var m := if t + e < n then e else n - t;
      assert t + m < n ==> Same(x, u + m, p);
      assert m < e ==> Same(x, u + m, c - u);
      var d := c - t;
      forall v | t <= v < t + m ensures Same(x, v, d) {
        assert Same(x, v - p, p) && Same(x, v - p, c - u);
      }
      ExtUnique(x, t, c, m);
    }
  }

  /** While the period goes on, no start inside the block just completed is the maximal suffix. */
  lemma BlockInteriorNotMaximal(x: seq<int>, rev: bool, c: nat, p: nat, j: nat, best: nat)
    requires LyndonOn(x, rev, c, c + p) && c + p <= j && j + p <= |x|
    requires Repeats(x, c, c + p, j - c)
    requires IsMaxSuffix(x, rev, best)
    ensures !(j < best < j + p)
  {
    if j < best < j + p {
      var t: nat := best - (j - c);
      BeatenCopy(x, rev, t, c, c + p, j - c);
      BeatenIsLess(x, rev, best, c, j + p);
      assert false;
    }
  }

  lemma BlockStartNotMaximal(x: seq<int>, rev: bool, p: nat, j: nat)
    requires 0 < p <= j && j + p <= |x| && Repeats(x, j - p, j, p)
    ensures !IsMaxSuffix(x, rev, j)
  {
    var i: nat := j - p;
    assert Agree(x, i, j, p);
    LessAfterShift(x, rev, i, j, p);
    if j + p < |x| {
      LessTotal(x, rev, j, j + p);
    }
    assert !Less(x, rev, i, j) || !Less(x, rev, j + p, j);
  }

  /** When the needle is used up, a start beyond the last complete block loses to the candidate:
      what follows it copies the start of the block, up to a smaller letter or up to the end. */
  lemma TailLoses(x: seq<int>, rev: bool, c: nat, p: nat, j: nat, best: nat)
    requires LyndonOn(x, rev, c, c + p) && c + p <= j <= best < |x| < j + p
    requires Repeats(x, c, c + (|x| - j), j - c)
    ensures !Less(x, rev, c, best)
  {
    hide Ext;
    var d: nat := j - c;
    var t: nat := best - d;
    var e := Ext(x, t, c);
    assert t > c ==> Beaten(x, rev, t, c, c + p);
    var m := if t > c && best + e < |x| then e else |x| - best;
    var b := c - best;
    forall v | best <= v < best + m ensures Same(x, v, b) {
      assert Same(x, v - d, d);
      assert t > c ==> Same(x, v - d, c - t);
    }
    assert best + m < |x| ==> Same(x, t + m, d);
    ExtUnique(x, best, c, m);
    LessTotal(x, rev, best, c);
  }

  lemma TailIsNotMaximal(x: seq<int>, rev: bool, c: nat, p: nat, j: nat, best: nat)
    requires LyndonOn(x, rev, c, c + p) && c + p <= j <= |x| < j + p
    requires Repeats(x, c, c + (|x| - j), j - c)
    requires IsMaxSuffix(x, rev, best)
    ensures best < j
  {
    if j <= best {
      TailLoses(x, rev, c, p, j, best);
      assert false;
    }
  }

  /** The block at `j` copies the start of the candidate as far as the period reaches. */
  lemma BlockCopy(x: seq<int>, c: nat, p: nat, j: nat, m: nat)
    requires c + p <= j && m <= p && j + m <= |x| && PeriodOn(x, c, j + m, p)
    requires Repeats(x, c, c + p, j - p - c)
    ensures Repeats(x, c, c + m, j - c) && Agree(x, c, j, m)
  {
    var d := j - c;
    forall t | c <= t < c + m ensures Same(x, t, d) {
      assert Same(x, t, j - p - c) && Same(x, t + (j - p - c), p);
    }
  }

  lemma LyndonPeriodIsSmallest(x: seq<int>, rev: bool, c: nat, p: nat)
    requires LyndonOn(x, rev, c, c + p) && PeriodOn(x, c, |x|, p)
    ensures SmallestPeriodFrom(x, c, p)
  {
    forall q: nat | 0 < q < p ensures !PeriodOn(x, c, |x|, q) {
      assert Beaten(x, rev, c + q, c, c + p);
      var m := Ext(x, c + q, c);
      assert PeriodOn(x, c, |x|, q) ==> Same(x, c + m, q);
    }
  }

  /** Where the loop stands: `c` is the candidate, `x[c..n]` repeats the Lyndon block `x[c..c+p]`,
      its last complete block ends at `j`, and the maximal suffix starts at `c`, at `j` or later. */
  ghost predicate Scanned(x: seq<int>, rev: bool, c: nat, p: nat, j: nat, n: nat, best: nat) {
    && c + p <= j <= n <= |x| && n < j + p
    && LyndonOn(x, rev, c, c + p)
    && PeriodOn(x, c, n, p)
    && Repeats(x, c, c + p, j - p - c)
    && IsMaxSuffix(x, rev, best) && (best == c || best >= j)
  }

  lemma ScanSame(x: seq<int>, rev: bool, c: nat, p: nat, j: nat, n: nat, best: nat)
    requires Scanned(x, rev, c, p, j, n, best) && n < |x| && x[n] == x[c + (n - j)]
    ensures n + 1 < j + p ==> Scanned(x, rev, c, p, j, n + 1, best)
    ensures n + 1 == j + p ==> Scanned(x, rev, c, p, j + p, n + 1, best)
  {
    assert Same(x, c + (n - j), j - p - c);
    assert Same(x, n - p, p);
    assert PeriodOn(x, c, n + 1, p);
    if n + 1 == j + p {
      BlockCopy(x, c, p, j, p);
      BlockInteriorNotMaximal(x, rev, c, p, j, best);
      BlockStartNotMaximal(x, rev, p, j);
    }
  }

  lemma ScanSmaller(x: seq<int>, rev: bool, c: nat, p: nat, j: nat, n: nat, best: nat)
    requires Scanned(x, rev, c, p, j, n, best) && n < |x| && Before(rev, x[n], x[c + (n - j)])
    ensures Scanned(x, rev, c, n + 1 - c, n + 1, n + 1, best)
  {
    assert Same(x, c + (n - j), j - p - c);
    var e := n + 1;
    forall t: nat | c < t < e ensures Beaten(x, rev, t, c, e) {
      LyndonGrows(x, rev, c, p, n, t);
    }
    assert forall t :: c <= t < c + (n + 1 - c) ==> Same(x, t, 0);
    if c < best < e {
      BeatenIsLess(x, rev, best, c, e);
      assert false;
    }
  }

  lemma ScanLarger(x: seq<int>, rev: bool, c: nat, p: nat, j: nat, n: nat, best: nat)
    requires Scanned(x, rev, c, p, j, n, best) && n < |x| && Before(rev, x[c + (n - j)], x[n])
    ensures Scanned(x, rev, j, 1, j + 1, j + 1, best)
  {
    BlockCopy(x, c, p, j, n - j);
    ExtUnique(x, c, j, n - j);
    LessTotal(x, rev, c, j);
    assert Same(x, j, 0);
  }

  lemma ScanDone(x: seq<int>, rev: bool, c: nat, p: nat, j: nat, best: nat)
    requires Scanned(x, rev, c, p, j, |x|, best)
    ensures IsMaxSuffix(x, rev, c) && SmallestPeriodFrom(x, c, p)
  {
    BlockCopy(x, c, p, j, |x| - j);
    TailIsNotMaximal(x, rev, c, p, j, best);
    LyndonPeriodIsSmallest(x, rev, c, p);
  }

  /** The maximal suffix of `n` under the order `rev` starts at `ip + 1`, and `p` is its smallest
      period.  (`ip` is -1 where the program lets an unsigned index wrap.) */
  method MaximalSuffix(n: seq<Byte>, rev: bool) returns (ip: int, p: nat)
    requires |n| > 0
    ensures -1 <= ip < |n| - 1
    ensures IsMaxSuffix(n, rev, ip + 1)
    ensures SmallestPeriodFrom(n, ip + 1, p)
  {
    ghost var best := MaxSuffixBelow(n, rev, |n|);
    var jp: nat, k: nat := 0, 1;
    ip, p := -1, 1;
    ghost var c: nat, j: nat, m: nat := 0, 1, 1;
    assert Same(n, 0, 0);
    while jp + k < |n|
      invariant 1 <= k <= p && c == ip + 1 && j == jp + 1 && m == jp + k
      invariant Scanned(n, rev, c, p, j, m, best) == true  // "== true" keeps the predicate folded
      decreases 2 * |n| - (ip + jp + k)
    {
      if n[ip + k] == n[jp + k] {
        ScanSame(n, rev, c, p, j, m, best);
        if k == p {
          jp := jp + p;
          k := 1;
          j := j + p;
        } else {
          k := k + 1;
        }
        m := m + 1;
      } else if Before(rev, n[jp + k], n[ip + k]) {
        ScanSmaller(n, rev, c, p, j, m, best);
        jp := jp + k;
        k := 1;
        p := jp - ip;
        j, m := m + 1, m + 1;
        assert p == m - c;
      } else {
        ScanLarger(n, rev, c, p, j, m, best);
        ip := jp;
        jp := jp + 1;
        k, p := 1, 1;
        c, j, m := j, j + 1, j + 1;
      }
    }
    ScanDone(n, rev, c, p, j, best);
  }
}
