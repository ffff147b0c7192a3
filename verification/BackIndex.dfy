/** Intrusive membership: records that point back at the one list that holds them.

    The process table, the child lists and the connection vectors all keep this discipline, so it is
    stated once: `back` is the back-pointer of every live record and `lists` the contents of every
    list.  The two agree when a record is on a list exactly if it points back at it, and then once. */
module BackIndex {

  datatype Link<+K> = Off | On(key: K)

  ghost predicate Distinct<T>(s: seq<T>) {
    forall i, j :: 0 <= i < j < |s| ==> s[i] != s[j]
  }

  /** No element counts twice. */
  lemma {:induction false} DistinctCount<T>(s: seq<T>)
    requires Distinct(s)
    ensures |set x | x in s| == |s|
  {
    if s != [] {
      var pre, last := s[..|s| - 1], s[|s| - 1];
      DistinctCount(pre);
      assert (set x | x in s) == (set x | x in pre) + {last};
    }
  }

  ghost predicate Agree<P, K>(back: map<P, Link<K>>, lists: map<K, seq<P>>) {
    && (forall k :: k in lists ==> Distinct(lists[k]))
    && (forall k, p :: k in lists && p in lists[k] ==> p in back && back[p] == On(k))
    && (forall p :: p in back && back[p].On? ==> back[p].key in lists && p in lists[back[p].key])
  }

  /** A record is on the list it points at. */
  lemma OnItsList<P, K>(back: map<P, Link<K>>, lists: map<K, seq<P>>, p: P)
    requires Agree(back, lists) && p in back && back[p].On?
    ensures back[p].key in lists && p in lists[back[p].key] && Distinct(lists[back[p].key])
  {
  }

  lemma PointsBack<P, K>(back: map<P, Link<K>>, lists: map<K, seq<P>>, p: P, k: K)
    requires Agree(back, lists) && k in lists && p in lists[k]
    ensures p in back && back[p] == On(k)
  {
  }

  // ---- list operations -----------------------------------------------------------------------

  /** `s` without the element `x`, in the same order. */
  function Without<T(==)>(s: seq<T>, x: T): (r: seq<T>) {
    if s == [] then [] else (if s[0] == x then [] else [s[0]]) + Without(s[1..], x)
  }

  /** `r` holds the elements of `s` except `x`, once each. */
  ghost predicate IsRemoval<T>(s: seq<T>, x: T, r: seq<T>) {
    Distinct(r) && |r| == |s| - 1 && (forall y :: y in r ==> y in s && y != x) && forall y :: y in s && y != x ==> y in r
  }

  lemma {:induction false} WithoutAbsent<T>(s: seq<T>, x: T)
    requires x !in s
    ensures Without(s, x) == s
  {
    if s != [] {
      WithoutAbsent(s[1..], x);
    }
  }

  lemma {:induction false} WithoutIsRemoval<T>(s: seq<T>, x: T)
    requires Distinct(s) && x in s
    ensures IsRemoval(s, x, Without(s, x))
  {
    if s[0] == x {
      WithoutAbsent(s[1..], x);
      assert forall y :: y in s && y != x ==> y in s[1..];
    } else {
      WithoutIsRemoval(s[1..], x);
      var r := Without(s[1..], x);
      var t := [s[0]] + r;
      forall i, j | 0 <= i < j < |t| ensures t[i] != t[j] {
        assert t[j] in r && t[j] in s[1..];
      }
      forall y | y in s && y != x ensures y in t {
        assert y != s[0] ==> y in s[1..];
      }
    }
  }

  lemma {:induction false} WithoutAt<T>(s: seq<T>, i: nat)
    requires i < |s| && Distinct(s)
    ensures Without(s, s[i]) == s[..i] + s[i + 1..]
  {
    if i > 0 {
      WithoutAt(s[1..], i - 1);
      assert s[0] != s[i] && s[1..][i - 1] == s[i];
      assert s[..i] + s[i + 1..] == [s[0]] + (s[1..][..i - 1] + s[1..][i..]);
    } else {
      WithoutAbsent(s[1..], s[0]);
    }
  }

  /** Removal by moving the last element into the gap. */
  function SwapRemove<T>(s: seq<T>, i: nat): (r: seq<T>)
    requires i < |s|
  {
    s[i := s[|s| - 1]][..|s| - 1]
  }

  function IndexOf<T(==)>(s: seq<T>, x: T): (i: nat)
    requires x in s
    ensures i < |s| && s[i] == x && x !in s[..i]
  {
    if s[0] == x then 0 else 1 + IndexOf(s[1..], x)
  }

  lemma {:induction false} IndexOfIsFirst<T>(s: seq<T>, x: T, i: nat)
    requires i < |s| && s[i] == x && x !in s[..i]
    ensures IndexOf(s, x) == i
  {
    if i > 0 {
      assert s[..i][0] == s[0] && s[..i][1..] == s[1..][..i - 1];
      IndexOfIsFirst(s[1..], x, i - 1);
    }
  }

  lemma SwapRemoveIsRemoval<T>(s: seq<T>, i: nat)
    requires i < |s| && Distinct(s)
    ensures IsRemoval(s, s[i], SwapRemove(s, i))
  {
    var r := SwapRemove(s, i);
    forall y | y in s && y != s[i] ensures y in r {
      var k :| 0 <= k < |s| && s[k] == y;
      assert k < |s| - 1 ==> r[k] == y;
      assert k == |s| - 1 ==> r[i] == y;
    }
  }

  lemma PushThenSwapRemove<T>(v: seq<T>, x: T)
    requires x !in v
    ensures SwapRemove(v + [x], IndexOf(v + [x], x)) == v
  {
    var w := v + [x];
    assert w[..|v|] == v && w[|v|] == x;
    IndexOfIsFirst(w, x, |v|);
  }

  lemma PushThenWithout<T>(v: seq<T>, x: T)
    requires x !in v
    ensures Without([x] + v, x) == v
  {
    WithoutAbsent(v, x);
  }

  lemma {:induction false} AppendThenWithout<T>(v: seq<T>, x: T)
    requires x !in v
    ensures Without(v + [x], x) == v
  {
    if v != [] {
      assert (v + [x])[1..] == v[1..] + [x];
      AppendThenWithout(v[1..], x);
    }
  }

  lemma SetThenErase<K, V>(m: map<K, V>, k: K, v: V)
    ensures m[k := v] - {k} == m - {k}
  {
  }

  lemma SetNewThenErase<K, V>(m: map<K, V>, k: K, v: V, w: V)
    requires k !in m
    ensures m[k := v] - {k} == m && m[k := v][k := w] - {k} == m
  {
  }

  lemma SetAndRestore<K, V>(m: map<K, V>, k: K, v: V)
    requires k in m
    ensures m[k := v][k := m[k]] == m
  {
  }

  lemma SetTwice<K, V>(m: map<K, V>, k: K, v: V, w: V)
    ensures m[k := v][k := w] == m[k := w]
  {
  }

  lemma SetToSame<K, V>(m: map<K, V>, k: K, v: V)
    requires k in m && m[k] == v
    ensures m[k := v] == m
  {
  }

  // ---- what every operation keeps ----------------------------------------------------------------

  lemma NothingLinked<P, K>(back: map<P, Link<K>>, lists: map<K, seq<P>>)
    requires (forall p :: p in back ==> back[p].Off?) && (forall k :: k in lists ==> lists[k] == [])
    ensures Agree(back, lists)
  {
  }

  lemma Linked<P, K>(back: map<P, Link<K>>, lists: map<K, seq<P>>, p: P, k: K, l: seq<P>)
    requires Agree(back, lists) && p in back && back[p].Off? && k in lists
    requires l == [p] + lists[k] || l == lists[k] + [p]
    ensures Agree(back[p := On(k)], lists[k := l])
  {
    assert p !in lists[k];
    assert forall q :: q in l <==> q == p || q in lists[k];
  }

  lemma LinkedBack<P, K>(back: map<P, Link<K>>, lists: map<K, seq<P>>, p: P, k: K)
    requires Agree(back, lists) && p in back && back[p].Off? && k in lists
    ensures Agree(back[p := On(k)], lists[k := lists[k] + [p]])
  {
    Linked(back, lists, p, k, lists[k] + [p]);
  }

  lemma LinkedFront<P, K>(back: map<P, Link<K>>, lists: map<K, seq<P>>, p: P, k: K)
    requires Agree(back, lists) && p in back && back[p].Off? && k in lists
    ensures Agree(back[p := On(k)], lists[k := [p] + lists[k]])
  {
    Linked(back, lists, p, k, [p] + lists[k]);
  }

  lemma Unlinked<P, K>(back: map<P, Link<K>>, lists: map<K, seq<P>>, p: P, l: seq<P>)
    requires Agree(back, lists) && p in back && back[p].On? && back[p].key in lists
    requires IsRemoval(lists[back[p].key], p, l)
    ensures Agree(back[p := Off], lists[back[p].key := l])
  {
  }

  lemma UnlinkedInOrder<P, K>(back: map<P, Link<K>>, lists: map<K, seq<P>>, p: P)
    requires Agree(back, lists) && p in back && back[p].On?
    ensures back[p].key in lists && Agree(back[p := Off], lists[back[p].key := Without(lists[back[p].key], p)])
    ensures |Without(lists[back[p].key], p)| == |lists[back[p].key]| - 1
  {
    OnItsList(back, lists, p);
    WithoutIsRemoval(lists[back[p].key], p);
    Unlinked(back, lists, p, Without(lists[back[p].key], p));
  }

  lemma Appeared<P, K>(back: map<P, Link<K>>, lists: map<K, seq<P>>, p: P)
    requires Agree(back, lists) && p !in back
    ensures Agree(back[p := Off], lists)
  {
  }

  lemma Vanished<P, K>(back: map<P, Link<K>>, lists: map<K, seq<P>>, p: P)
    requires Agree(back, lists) && p in back && back[p].Off?
    ensures Agree(back - {p}, lists)
  {
  }

  lemma ListAppeared<P, K>(back: map<P, Link<K>>, lists: map<K, seq<P>>, k: K)
    requires Agree(back, lists) && k !in lists
    ensures Agree(back, lists[k := []])
  {
  }

  lemma ListVanished<P, K>(back: map<P, Link<K>>, lists: map<K, seq<P>>, k: K)
    requires Agree(back, lists) && k in lists && lists[k] == []
    ensures Agree(back, lists - {k})
  {
  }

  /** Emptying a list and clearing the back-pointers of its records. */
  lemma Cleared<P, K>(back: map<P, Link<K>>, lists: map<K, seq<P>>, k: K)
    requires Agree(back, lists) && k in lists
    ensures Agree(map p | p in back :: if p in lists[k] then Off else back[p], lists[k := []])
  {
  }
}
