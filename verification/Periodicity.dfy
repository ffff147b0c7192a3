/** Words, periods and suffix orders: the combinatorics behind the two-way string search.

    A word is a sequence of integers.  `rev` selects the byte order: the natural one when false and
    the opposite one when true, because the needle is factored once under each. */
module Periodicity {

  /** The length of the longest common prefix of the suffixes of `x` that start at `i` and at `j`. */
  ghost function Ext(x: seq<int>, i: nat, j: nat): (m: nat)
    requires i <= |x| && j <= |x|
    ensures i + m <= |x| && j + m <= |x|
    ensures Agree(x, i, j, m)
    ensures i + m < |x| && j + m < |x| ==> x[i + m] != x[j + m]
    decreases |x| - i
  {
    if i < |x| && j < |x| && x[i] == x[j] then 1 + Ext(x, i + 1, j + 1) else 0
  }

  /** The letter at `t` reappears `d` further on.  A name for this keeps the quantifiers below from
      instantiating each other without end. */
  ghost predicate Same(x: seq<int>, t: int, d: int) {
    0 <= t < |x| && 0 <= t + d < |x| && x[t] == x[t + d]
  }

  /** The `m` letters from `i` on and the `m` letters from `j` on are the same. */
  ghost predicate Agree(x: seq<int>, i: nat, j: nat, m: nat) {
    Repeats(x, i, i + m, j - i)
  }

  /** Every letter from `i` up to `e` reappears `d` further on. */
  ghost predicate Repeats(x: seq<int>, i: int, e: int, d: int) {
    forall t :: i <= t < e ==> Same(x, t, d)
  }

  predicate Before(rev: bool, a: int, b: int) {
    if rev then a > b else a < b
  }

  /** Suffix `i` is strictly smaller than suffix `j`; a proper prefix is smaller. */
  ghost predicate Less(x: seq<int>, rev: bool, i: nat, j: nat)
    requires i <= |x| && j <= |x|
  {
    var m := Ext(x, i, j);
    if i + m == |x| || j + m == |x| then i > j else Before(rev, x[i + m], x[j + m])
  }

  ghost predicate IsMaxSuffix(x: seq<int>, rev: bool, c: nat) {
    && c < |x|
    && forall t: nat :: t < |x| && t != c ==> Less(x, rev, t, c)
  }

  /** A common prefix that ends in a difference or at the end of a suffix is the longest one. */
  lemma ExtUnique(x: seq<int>, i: nat, j: nat, m: nat)
    requires i + m <= |x| && j + m <= |x| && Agree(x, i, j, m)
    requires i + m == |x| || j + m == |x| || x[i + m] != x[j + m]
    ensures Ext(x, i, j) == m
  {
    var e := Ext(x, i, j);
    assert e < m ==> Same(x, i + e, j - i);
    assert m < e ==> Same(x, i + m, j - i);
  }

  lemma ExtShift(x: seq<int>, i: nat, j: nat, d: nat)
    requires i + d <= |x| && j + d <= |x| && Agree(x, i, j, d)
    ensures Ext(x, i, j) == d + Ext(x, i + d, j + d)
  {
    ExtUnique(x, i, j, d + Ext(x, i + d, j + d));
  }

  lemma ExtSymmetric(x: seq<int>, i: nat, j: nat)
    requires i <= |x| && j <= |x|
    ensures Ext(x, i, j) == Ext(x, j, i)
  {
    var m := Ext(x, i, j);
    var d := j - i;
    assert forall t :: i <= t < i + m ==> Same(x, t, d);
    var d' := i - j;
    forall t | j <= t < j + m ensures Same(x, t, d') {
      assert Same(x, t - d, d);
    }
    ExtUnique(x, j, i, m);
  }

  lemma LessTotal(x: seq<int>, rev: bool, i: nat, j: nat)
    requires i <= |x| && j <= |x| && i != j
    ensures Less(x, rev, i, j) <==> !Less(x, rev, j, i)
  {
    ExtSymmetric(x, i, j);
  }

  lemma LessTransitive(x: seq<int>, rev: bool, i: nat, j: nat, k: nat)
    requires i <= |x| && j <= |x| && k <= |x| && i != j && j != k
    requires Less(x, rev, i, j) && Less(x, rev, j, k)
    ensures Less(x, rev, i, k) && i != k
  {
    if i == k {
      LessTotal(x, rev, i, j);
      assert false;
    }
    var a, b := Ext(x, i, j), Ext(x, j, k);
    var m := if a < b then a else b;
    var d := k - i;
    forall t | i <= t < i + m ensures Same(x, t, d) {
      assert Same(x, t, j - i) && Same(x, t + (j - i), k - j);
    }
    assert a > m ==> Same(x, i + m, j - i);
    assert b > m ==> Same(x, j + m, k - j);
    ExtUnique(x, i, k, m);
  }

  /** Equal letters in front do not decide a comparison. */
  lemma LessAfterShift(x: seq<int>, rev: bool, i: nat, j: nat, d: nat)
    requires i + d <= |x| && j + d <= |x| && Agree(x, i, j, d)
    ensures Less(x, rev, i, j) <==> Less(x, rev, i + d, j + d)
  {
    ExtShift(x, i, j, d);
  }

  lemma SmallerInBothOrders(x: seq<int>, rev: bool, i: nat, j: nat)
    requires i <= |x| && j <= |x| && i != j && Less(x, rev, i, j) && Less(x, !rev, i, j)
    ensures j < i && Agree(x, i, j, |x| - i)
  {
    assert i + Ext(x, i, j) == |x|;
  }

  /** Every nonempty word has a maximal suffix among those that start below `n`. */
  lemma MaxSuffixBelow(x: seq<int>, rev: bool, n: nat) returns (c: nat)
    requires 0 < n <= |x|
    ensures c < n && forall t: nat :: t < n && t != c ==> Less(x, rev, t, c)
  {
    c := 0;
    for k := 1 to n
      invariant c < k && forall t: nat :: t < k && t != c ==> Less(x, rev, t, c)
    {
      LessTotal(x, rev, c, k);
      if Less(x, rev, c, k) {
        forall t: nat | t < k && t != c ensures Less(x, rev, t, k) {
          LessTransitive(x, rev, t, c, k);
        }
        c := k;
      }
    }
  }

  // ---- periods -------------------------------------------------------------------------------

  /** `x` from position `c` up to `e` repeats every `p` letters. */
  ghost predicate PeriodOn(x: seq<int>, c: nat, e: nat, p: nat)
    requires e <= |x|
  {
    forall t :: c <= t && t + p < e ==> Same(x, t, p)
  }

  ghost predicate Period(x: seq<int>, p: nat) {
    0 < p && PeriodOn(x, 0, |x|, p)
  }

  ghost predicate SmallestPeriodFrom(x: seq<int>, c: nat, p: nat) {
    && 0 < p && c + p <= |x|
    && PeriodOn(x, c, |x|, p)
    && forall q: nat :: 0 < q < p ==> !PeriodOn(x, c, |x|, q)
  }

  /** `s` is a repetition at the cut `c`: the letters just before the cut reappear `s` further on,
      as far as the word reaches on both sides. */
  ghost predicate LocalPeriod(x: seq<int>, c: nat, s: nat) {
    0 < s && forall j: nat :: c - s <= j < c && j + s < |x| ==> Same(x, j, s)
  }

  /** The cut `c` is a critical factorisation for the smallest period `p` of `x`: no repetition at
      the cut is shorter than `p`, and the cut comes before `p`. */
  ghost predicate Critical(x: seq<int>, c: nat, p: nat) {
    && c < p
    && Period(x, p)
    && forall s: nat :: LocalPeriod(x, c, s) ==> p <= s
  }

  /** A cut at the maximal suffix allows no repetition of length at most `c`. */
  lemma NoShortRepetition(x: seq<int>, rev: bool, c: nat, s: nat)
    requires IsMaxSuffix(x, rev, c) && LocalPeriod(x, c, s)
    ensures c < s
  {
    if s <= c {
      var d := if s < |x| - c then s else |x| - c;
      var i: nat := c - s;
      forall t | i <= t < i + d ensures Same(x, t, s) {
        var j: nat := t;
        assert Same(x, j, s);
      }
      assert Agree(x, i, c, d);
      LessAfterShift(x, rev, i, c, d);
      if d < |x| - c {
        assert Less(x, rev, c + s, c);
        LessTotal(x, rev, c, c + s);
      }
    }
  }

  /** The heart of the critical factorisation theorem: if the maximal suffix at `c` under one order
      is no longer than the maximal suffix at `b` under the other, then every repetition at the
      cut `c` is a period of the whole word. */
  lemma RepetitionIsPeriod(x: seq<int>, rev: bool, c: nat, b: nat, s: nat)
    requires IsMaxSuffix(x, rev, c) && IsMaxSuffix(x, !rev, b) && b <= c
    requires LocalPeriod(x, c, s)
    ensures Period(x, s)
  {
    NoShortRepetition(x, rev, c, s);
    if s < |x| - c {
      RemainderIsPrefix(x, rev, c, b, s);
    }
    var d := c - (c + s);
    forall t | 0 <= t && t + s < |x| ensures Same(x, t, s) {
      var j: nat := t;
      assert t < c ==> Same(x, j, s);
      assert t >= c ==> Same(x, t + s, d);
    }
  }

  /** With x[c..] = w z and |w| == s, the suffix z is below x[c..] in both orders, so it is a prefix. */
  lemma RemainderIsPrefix(x: seq<int>, rev: bool, c: nat, b: nat, s: nat)
    requires IsMaxSuffix(x, rev, c) && IsMaxSuffix(x, !rev, b) && b <= c < s
    requires LocalPeriod(x, c, s) && c + s < |x|
    ensures Agree(x, c + s, c, |x| - c - s)
  {
    var d := b - (b + s);
    forall t | b + s <= t < b + s + (c - b) ensures Same(x, t, d) {
      var j: nat := t - s;
      assert Same(x, j, s);
    }
    assert Less(x, !rev, b + s, b);
    LessAfterShift(x, !rev, b + s, b, c - b);
    SmallerInBothOrders(x, rev, c + s, c);
  }

  /** The smallest period of a nonempty word exists; it is at most the length. */
  lemma SmallestPeriodExists(x: seq<int>) returns (p: nat)
    requires |x| > 0
    ensures Period(x, p) && p <= |x| && forall q: nat :: Period(x, q) ==> p <= q
  {
    p := 1;
    while !Period(x, p)
      invariant 1 <= p <= |x|
      invariant forall q: nat :: 0 < q < p ==> !Period(x, q)
      decreases |x| - p
    {
      p := p + 1;
    }
  }

  /** Critical factorisation theorem (Crochemore and Perrin, JACM 38(3), theorem 3.1): the shorter of
      the two maximal suffixes starts at a critical position. */
  lemma CriticalFactorisation(x: seq<int>, rev: bool, c: nat, b: nat) returns (p: nat)
    requires IsMaxSuffix(x, rev, c) && IsMaxSuffix(x, !rev, b) && b <= c
    ensures Critical(x, c, p) && p <= |x| && forall q: nat :: Period(x, q) ==> p <= q
  {
    p := SmallestPeriodExists(x);
    assert LocalPeriod(x, c, p);
    NoShortRepetition(x, rev, c, p);
    forall s: nat | LocalPeriod(x, c, s) ensures p <= s {
      RepetitionIsPeriod(x, rev, c, b, s);
    }
  }
}
