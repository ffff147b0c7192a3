/** The looping guard over whole runs of starts of one service. */
module StartRuns {
  import opened Inetd

  /** One more start.  A service that is found looping is closed, which clears its counter. */
  function AfterStart(v: Service, toomany: int, now: int): Service {
    var (w, looping) := Started(v, toomany, now);
    if looping then w.(count := 0) else w
  }

  /** The service after starts at `times`, from a clear counter on. */
  function After(v: Service, toomany: int, times: seq<int>): Service {
    if times == [] then v.(count := 0)
    else AfterStart(After(v, toomany, times[..|times| - 1]), toomany, times[|times| - 1])
  }

  /** The start at position `i` is found looping. */
  predicate Loops(v: Service, toomany: int, times: seq<int>, i: nat)
    requires i < |times|
  {
    Started(After(v, toomany, times[..i]), toomany, times[i]).1
  }

  /** The clock does not run backwards. */
  ghost predicate Forward(times: seq<int>) {
    forall i, j :: 0 <= i < j < |times| ==> times[i] <= times[j]
  }

  lemma AfterMore(v: Service, toomany: int, times: seq<int>, i: nat)
    requires i < |times|
    ensures After(v, toomany, times[..i + 1]) == AfterStart(After(v, toomany, times[..i]), toomany, times[i])
  {
    assert times[..i + 1][..i] == times[..i];
  }

  lemma AfterNone(v: Service, toomany: int, times: seq<int>)
    ensures After(v, toomany, times[..0]) == v.(count := 0)
  {
    assert times[..0] == [];
  }

  /** The counter holds the starts since the time it remembers, none of which was found looping. */
  lemma {:induction false} CounterCounts(v: Service, toomany: int, times: seq<int>, n: nat)
    requires n <= |times|
    ensures var w := After(v, toomany, times[..n]);
            && w.count <= n && (w.count > 0 ==> w.since == times[n - w.count])
            && forall j :: n - w.count <= j < n ==> !Loops(v, toomany, times, j)
  {
    hide After;
    if n > 0 {
      CounterCounts(v, toomany, times, n - 1);
      AfterMore(v, toomany, times, n - 1);
    } else {
      AfterNone(v, toomany, times);
    }
  }

  /** A start is found looping only when it is one of at least `toomany`, and of two, that were counted
      within the last 60 seconds. */
  lemma LoopsOnlyWhenFast(v: Service, toomany: int, times: seq<int>, i: nat)
    requires Forward(times) && i < |times| && Loops(v, toomany, times, i)
    ensures toomany > 0 && exists c: nat :: c <= i && c >= 1 && c + 1 >= toomany && FastRun(v, toomany, times, i, c)
  {
    var w := After(v, toomany, times[..i]);
    CounterCounts(v, toomany, times, i);
    assert w.count > 0;
    forall j | i - w.count <= j < i ensures times[i] - times[j] <= 60 {
      assert j > i - w.count ==> times[i - w.count] <= times[j];
    }
    assert FastRun(v, toomany, times, i, w.count);
  }

  /** The `c` starts before the one at `i` were counted, within 60 seconds before it. */
  ghost predicate FastRun(v: Service, toomany: int, times: seq<int>, i: nat, c: nat) {
    c <= i < |times| && forall j :: i - c <= j < i ==> !Loops(v, toomany, times, j) && times[i] - times[j] <= 60
  }

  // ---- fast starts are found -----------------------------------------------------------------

  function Limit(toomany: int): int {
    if toomany < 2 then 2 else toomany
  }

  /** How many starts not earlier than `first` may follow without being found looping. */
  function Left(w: Service, toomany: int, first: int): int {
    if w.count == 0 then Limit(toomany)
    else if w.since >= first then Limit(toomany) - w.count
    else Limit(toomany) - w.count + Limit(toomany) - 1
  }

  lemma OneStartLess(w: Service, toomany: int, now: int, first: int)
    requires toomany > 0 && w.count < Limit(toomany) && first <= now <= first + 60 && !Started(w, toomany, now).1
    ensures var u := AfterStart(w, toomany, now);
            0 < u.count < Limit(toomany) && Left(u, toomany, first) < Left(w, toomany, first)
  {
  }

  lemma {:induction false} CounterIsBounded(v: Service, toomany: int, times: seq<int>)
    requires toomany > 0
    ensures After(v, toomany, times).count < Limit(toomany)
  {
    if times != [] {
      CounterIsBounded(v, toomany, times[..|times| - 1]);
    }
  }

  lemma {:induction false} NoLoopUsesUp(v: Service, toomany: int, times: seq<int>, a: nat, k: nat)
    requires toomany > 0 && a + k <= |times| && Forward(times)
    requires forall i :: a <= i < a + k ==> !Loops(v, toomany, times, i) && times[i] <= times[a] + 60
    ensures a < |times| ==>
              Left(After(v, toomany, times[..a + k]), toomany, times[a]) + k <= Left(After(v, toomany, times[..a]), toomany, times[a])
  {
    if k > 0 {
      var i := a + k - 1;
      NoLoopUsesUp(v, toomany, times, a, k - 1);
      CounterIsBounded(v, toomany, times[..i]);
      AfterMore(v, toomany, times, i);
      OneStartLess(After(v, toomany, times[..i]), toomany, times[i], times[a]);
    }
  }

  /** Of any `2 * toomany` starts in a row within 60 seconds one at least is found looping; so of fewer by two,
      as long as there are two. */
  lemma FastStartsLoop(v: Service, toomany: int, times: seq<int>, a: nat, n: nat)
    requires toomany > 0 && Forward(times) && a + n <= |times| && n >= 2 && n >= 2 * toomany - 2
    requires times[a + n - 1] - times[a] <= 60
    ensures exists i :: a <= i < a + n && Loops(v, toomany, times, i)
  {
    if forall i :: a <= i < a + n ==> !Loops(v, toomany, times, i) {
      forall i | a <= i < a + n ensures times[i] <= times[a] + 60 {
        assert i < a + n - 1 ==> times[i] <= times[a + n - 1];
      }
      NoLoopUsesUp(v, toomany, times, a, n);
      CounterIsBounded(v, toomany, times[..a]);
      CounterIsBounded(v, toomany, times[..a + n]);
      assert false;
    }
  }

  /** Without a limit no start is. */
  lemma NeverLoops(v: Service, toomany: int, times: seq<int>, i: nat)
    requires toomany <= 0 && i < |times|
    ensures !Loops(v, toomany, times, i)
  {
  }
}
