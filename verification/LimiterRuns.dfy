/** What the rate limiter guarantees over whole runs of calls: for every interleaving of hosts and
    every clock that does not run backwards. */
module LimiterRuns {
  import opened HostKey
  import opened RateLimit

  /** One call, the answer it got, and the list it left behind. */
  datatype Event = Event(call: Call, answer: Verdict, after: seq<Entry>)

  type Run = seq<Event>

  function Before(run: Run): Run
    requires run != []
  {
    run[..|run| - 1]
  }

  function Last(run: Run): Event
    requires run != []
  {
    run[|run| - 1]
  }

  function State(run: Run): seq<Entry> {
    if run == [] then [] else Last(run).after
  }

  function Clock(run: Run): nat {
    if run == [] then 0 else Last(run).call.now
  }

  /** The event at position `i` is one step of the limiter from the list left by the one before. */
  ghost predicate Happened(run: Run, i: nat)
    requires i < |run|
  {
    Steps(if i == 0 then [] else run[i - 1].after, run[i].call, run[i].after, run[i].answer)
  }

  /** Every call is answered as the limiter does, from an empty start, and the clock never runs
      backwards. */
  ghost predicate IsRun(run: Run) {
    && (forall i, j :: 0 <= i < j < |run| ==> run[i].call.now <= run[j].call.now)
    && forall i: nat :: i < |run| ==> Happened(run, i)
  }

  lemma PrefixIsRun(run: Run, n: nat)
    requires IsRun(run) && n <= |run|
    ensures IsRun(run[..n])
  {
    forall i: nat | i < n ensures Happened(run[..n], i) {
      assert Happened(run, i);
    }
  }

  /** Taking a run apart: the last step, from the list that the rest of the run left. */
  lemma LastStep(run: Run)
    requires run != [] && IsRun(run)
    ensures IsRun(Before(run)) && Clock(Before(run)) <= Clock(run)
    ensures Steps(State(Before(run)), Last(run).call, State(run), Last(run).answer)
  {
    PrefixIsRun(run, |run| - 1);
    assert Happened(run, |run| - 1);
  }

  /** Any calls make a run. */
  ghost function Replay(calls: seq<Call>): (run: Run)
    ensures |run| == |calls| && forall i :: 0 <= i < |calls| ==> run[i].call == calls[i]
  {
    if calls == [] then []
    else
      var pre, c := Replay(calls[..|calls| - 1]), calls[|calls| - 1];
      var (after, answer) := Step(State(pre), c);
      pre + [Event(c, answer, after)]
  }

  lemma {:induction false} ReplayIsRun(calls: seq<Call>)
    requires forall i, j :: 0 <= i < j < |calls| ==> calls[i].now <= calls[j].now
    ensures IsRun(Replay(calls))
  {
    if calls != [] {
      var run, pre := Replay(calls), Replay(calls[..|calls| - 1]);
      ReplayIsRun(calls[..|calls| - 1]);
      forall i: nat | i < |run| ensures Happened(run, i) {
        if i < |pre| {
          assert Happened(pre, i);
        }
      }
    }
  }

  /** The clock stays within what the tick counter can hold. */
  ghost predicate InRange(run: Run) {
    forall i :: 0 <= i < |run| ==> run[i].call.now / CHTGRAN < UINT
  }

  // ---- the list ------------------------------------------------------------------------------

  /** Keys stay distinct and the list stays in order of last use. */
  lemma {:induction false} ListInvariant(run: Run)
    requires IsRun(run)
    ensures DistinctKeys(State(run)) && InOrder(State(run), Clock(run))
  {
    if run != [] {
      var pre := Before(run);
      LastStep(run);
      ListInvariant(pre);
      StepKeepsOrder(State(pre), Last(run).call, State(run), Last(run).answer, Clock(pre));
    }
  }

  // ---- rings and histories -------------------------------------------------------------------

  /** The ticks of the counted calls of host `k` since its record was last assigned to it: calls turned
      away in quarantine are not counted, and being unknown ends the history. */
  ghost function Life(run: Run, k: Key): seq<nat> {
    if run == [] || !Known(State(run), k) then []
    else if Last(run).call.key != k || Last(run).answer.Waiting? then Life(Before(run), k)
    else Life(Before(run), k) + [Tick(Last(run).call.now)]
  }

  lemma TickGrows(a: nat, b: nat)
    requires a <= b && b / CHTGRAN < UINT
    ensures Tick(a) <= Tick(b)
  {
    assert a / CHTGRAN <= b / CHTGRAN;
  }

  lemma TracksLater(times: Ring, h: seq<nat>, t: nat, u: nat)
    requires Tracks(times, h, t) && t <= u
    ensures Tracks(times, h, u)
  {
  }

  /** The served record, found again after the call, is what serving made of it. */
  lemma LastServed(run: Run)
    requires run != [] && IsRun(run)
    requires var c := Last(run).call; GetNode(State(Before(run)), c.key, c.now, c.room).Placed?
    ensures var c := Last(run).call;
            var (e, v) := Serve(Served(State(Before(run)), c), c);
            Last(run).answer == v && e.key == c.key && Holds(State(run), e)
  {
    LastStep(run);
    ListInvariant(Before(run));
    StepServes(State(Before(run)), Last(run).call, State(run), Last(run).answer, Clock(Before(run)));
  }

  /** The record that serves the last call holds the history before it. */
  lemma {:induction false} ServedTracks(run: Run)
    requires run != [] && IsRun(run) && InRange(run)
    requires var c := Last(run).call; GetNode(State(Before(run)), c.key, c.now, c.room).Placed?
    ensures var pre, c := Before(run), Last(run).call;
            Tracks(Served(State(pre), c).times, Life(pre, c.key), Tick(c.now))
    decreases |run|, 0
  {
    var pre, c := Before(run), Last(run).call;
    var i := Find(State(pre), c.key);
    if i < |State(pre)| {
      LastStep(run);
      RingHoldsLife(pre, State(pre)[i]);
      TickGrows(Clock(pre), c.now);
      TracksLater(State(pre)[i].times, Life(pre, c.key), Tick(Clock(pre)), Tick(c.now));
    } else {
      UnusedTracks(Tick(c.now));
    }
  }

  /** Every ring holds the history of its host. */
  lemma {:induction false} RingHoldsLife(run: Run, e: Entry)
    requires IsRun(run) && InRange(run) && e in State(run)
    ensures Tracks(e.times, Life(run, e.key), Tick(Clock(run)))
    decreases |run|, 2
  {
    ListInvariant(run);
    FindIs(State(run), e);
    if e.key != Last(run).call.key {
      OtherRingHoldsLife(run, e);
    } else {
      OwnRingHoldsLife(run, e);
    }
  }

  lemma {:induction false} OtherRingHoldsLife(run: Run, e: Entry)
    requires IsRun(run) && InRange(run) && e in State(run) && Known(State(run), e.key) && e.key != Last(run).call.key
    ensures Tracks(e.times, Life(run, e.key), Tick(Clock(run)))
    decreases |run|, 1
  {
    var pre, c := Before(run), Last(run).call;
    LastStep(run);
    ListInvariant(pre);
    OtherHost(State(pre), c, State(run), Last(run).answer, e);
    RingHoldsLife(pre, e);
    TickGrows(Clock(pre), c.now);
    TracksLater(e.times, Life(pre, e.key), Tick(Clock(pre)), Tick(c.now));
  }

  lemma {:induction false} OwnRingHoldsLife(run: Run, e: Entry)
    requires IsRun(run) && InRange(run) && e in State(run) && Holds(State(run), e) && e.key == Last(run).call.key
    ensures Tracks(e.times, Life(run, e.key), Tick(Clock(run)))
    decreases |run|, 1
  {
    var pre, c := Before(run), Last(run).call;
    LastStep(run);
    KnownIsPlaced(State(pre), c, State(run), Last(run).answer);
    LastServed(run);
    ServedTracks(run);
    BumpTracks(Served(State(pre), c).times, Life(pre, c.key), Tick(c.now), Tick(c.now));
  }

  /** The answer in terms of the run alone: apart from calls turned away in quarantine, a call is over
      the limit exactly when the calls of its host in the last six ticks, itself included, counted since
      its record was assigned, exceed `maxcpm`. */
  lemma AnswerIsExact(run: Run)
    requires run != [] && IsRun(run) && InRange(run) && Last(run).call.now >= 60
    requires Known(State(run), Last(run).call.key) && !Last(run).answer.Waiting?
    ensures var c := Last(run).call;
            var t := Tick(c.now);
            Last(run).answer == if Within(Life(run, c.key), t - 5, t) > c.maxcpm then Exceeded else Pass
  {
    var pre, c := Before(run), Last(run).call;
    LastStep(run);
    KnownIsPlaced(State(pre), c, State(run), Last(run).answer);
    LastServed(run);
    ServedTracks(run);
    ServeIsExact(Served(State(pre), c), c, Life(pre, c.key));
  }

  /** Before the sixth tick the lower end of the window wraps around, and nothing is ever limited. */
  lemma EarlyTicksAreUnlimited(s: seq<Entry>, c: Call)
    requires c.now < 60 && c.maxcpm >= 0
    ensures !Step(s, c).1.Exceeded?
  {
    forall times: Ring, n: nat | n <= CHTSIZE ensures Total(times, Tick(c.now), n) == 0 {
      EarlyTotal(times, Tick(c.now), n);
    }
  }

  lemma {:induction false} EarlyTotal(times: Ring, t: nat, n: nat)
    requires t < CHTSIZE && n <= CHTSIZE
    ensures Total(times, t, n) == 0
  {
    if n > 0 { EarlyTotal(times, t, n - 1); }
  }

  // ---- the limit -----------------------------------------------------------------------------

  /** Calls of host `k` let through from position `i` up to the end of the run. */
  function Admitted(run: Run, i: nat, k: Key): nat {
    if |run| <= i then 0
    else Admitted(Before(run), i, k) + if Last(run).call.key == k && Last(run).answer.Pass? then 1 else 0
  }

  /** Host `k` keeps its record after every call from position `i` on. */
  ghost predicate KeepsRecord(run: Run, i: nat, k: Key) {
    forall p :: i <= p < |run| ==> Known(run[p].after, k)
  }

  /** From position `i` on the limit of host `k` is at most `m`. */
  ghost predicate LimitedTo(run: Run, i: nat, k: Key, m: int) {
    forall p :: i <= p < |run| && run[p].call.key == k ==> run[p].call.maxcpm <= m
  }

  lemma {:induction false} AdmittedAreCounted(run: Run, i: nat, k: Key, lo: int, hi: int)
    requires KeepsRecord(run, i, k)
    requires forall p :: i <= p < |run| ==> lo <= Tick(run[p].call.now) <= hi
    ensures Admitted(run, i, k) <= Within(Life(run, k), lo, hi)
  {
    if |run| > i {
      AdmittedAreCounted(Before(run), i, k, lo, hi);
    }
  }

  lemma TicksBetween(run: Run, i: nat)
    requires IsRun(run) && InRange(run) && i < |run|
    ensures forall p :: i <= p < |run| ==> Tick(run[i].call.now) <= Tick(run[p].call.now) <= Tick(Last(run).call.now)
  {
    forall p | i <= p < |run| ensures Tick(run[i].call.now) <= Tick(run[p].call.now) <= Tick(Last(run).call.now) {
      TickGrows(run[i].call.now, run[p].call.now);
      TickGrows(run[p].call.now, Last(run).call.now);
    }
  }

  /** A call let through has all the calls let through before it in its window. */
  lemma LetThrough(run: Run, i: nat, k: Key)
    requires IsRun(run) && InRange(run) && i < |run| && KeepsRecord(run, i, k)
    requires run[i].call.now >= 60 && Tick(Last(run).call.now) <= Tick(run[i].call.now) + 5
    requires Last(run).call.key == k && Last(run).answer.Pass?
    ensures Admitted(run, i, k) <= Last(run).call.maxcpm
  {
    hide Happened, Steps, Within;
    var t := Tick(Last(run).call.now);
    TicksBetween(run, i);
    AdmittedAreCounted(run, i, k, t - 5, t);
    assert Known(run[|run| - 1].after, k);
    AnswerIsExact(run);
  }

  /** While a host keeps its record, at most `m` of its calls are let through in any six consecutive
      ticks. */
  lemma {:induction false} AtMostTheLimit(run: Run, i: nat, k: Key, m: nat)
    requires IsRun(run) && InRange(run) && i <= |run| && KeepsRecord(run, i, k) && LimitedTo(run, i, k, m)
    requires i < |run| ==> run[i].call.now >= 60 && Tick(Last(run).call.now) <= Tick(run[i].call.now) + 5
    ensures Admitted(run, i, k) <= m
  {
    if i < |run| {
      if Last(run).call.key == k && Last(run).answer.Pass? {
        LetThrough(run, i, k);
      } else {
        TicksBetween(run, i);
        LastStep(run);
        AtMostTheLimit(Before(run), i, k, m);
      }
    }
  }

  // ---- quarantine ----------------------------------------------------------------------------

  /** A call of host `k` over the limit of a service whose wait ends at `until`. */
  predicate Bars(e: Event, k: Key, until: nat) {
    e.call.key == k && e.answer.Exceeded? && e.call.cpmwait > 0 && until == e.call.now + e.call.cpmwait
  }

  /** A call over the limit of a service with a wait puts its host in quarantine, and is the only thing
      that does. */
  lemma LastExceeded(run: Run, until: nat)
    requires run != [] && IsRun(run) && Last(run).answer.Exceeded? && until > Clock(run)
    ensures Bars(Last(run), Last(run).call.key, until) <==> InQuarantine(State(run), Last(run).call.key, until)
  {
    LastStep(run);
    ListInvariant(Before(run));
    QuarantineStarts(State(Before(run)), Last(run).call, State(run), Clock(Before(run)), until);
  }

  lemma QuarantineGoesOn(run: Run, k: Key, until: nat)
    requires run != [] && IsRun(run) && InQuarantine(State(Before(run)), k, until)
    requires Clock(run) < until && (Last(run).call.key == k ==> Last(run).call.cpmwait > 0)
    ensures InQuarantine(State(run), k, until)
    ensures Last(run).call.key == k ==> Last(run).answer.Waiting?
  {
    LastStep(run);
    ListInvariant(Before(run));
    QuarantineContinues(State(Before(run)), Last(run).call, State(run), Last(run).answer, Clock(Before(run)), k, until);
  }

  lemma {:induction false} QuarantineLasts(run: Run, i: nat, k: Key, until: nat)
    requires IsRun(run) && i < |run| && InQuarantine(run[i].after, k, until) && Clock(run) < until
    requires forall p :: i < p < |run| && run[p].call.key == k ==> run[p].call.cpmwait > 0
    ensures InQuarantine(State(run), k, until)
  {
    if i < |run| - 1 {
      LastStep(run);
      QuarantineLasts(Before(run), i, k, until);
      QuarantineGoesOn(run, k, until);
    }
  }

  lemma ExceededAt(run: Run, i: nat, until: nat)
    requires IsRun(run) && i < |run| && Bars(run[i], run[i].call.key, until)
    ensures InQuarantine(run[i].after, run[i].call.key, until)
  {
    PrefixIsRun(run, i + 1);
    LastExceeded(run[..i + 1], until);
  }

  /** Once the call at position `i` goes over the limit of a service with a wait, every call of that host
      before the wait is over is turned away, whatever the other hosts do. */
  lemma QuarantineHolds(run: Run, i: nat)
    requires IsRun(run) && i < |run| - 1 && run[i].answer.Exceeded? && run[i].call.cpmwait > 0
    requires Last(run).call.key == run[i].call.key && Last(run).call.now < run[i].call.now + run[i].call.cpmwait
    requires forall p :: i < p < |run| && run[p].call.key == run[i].call.key ==> run[p].call.cpmwait > 0
    ensures Last(run).answer.Waiting?
  {
    var c := run[i].call;
    ExceededAt(run, i, c.now + c.cpmwait);
    LastStep(run);
    QuarantineLasts(Before(run), i, c.key, c.now + c.cpmwait);
    QuarantineGoesOn(run, c.key, c.now + c.cpmwait);
  }

  lemma QuarantineWasBefore(run: Run, k: Key, until: nat)
    requires run != [] && IsRun(run) && InQuarantine(State(run), k, until) && Clock(run) < until
    requires !(Last(run).call.key == k && Last(run).answer.Exceeded?)
    ensures InQuarantine(State(Before(run)), k, until)
  {
    LastStep(run);
    ListInvariant(Before(run));
    QuarantineWasThere(State(Before(run)), Last(run).call, State(run), Last(run).answer, Clock(Before(run)), k, until);
  }

  /** A quarantine that has not run out was started by an earlier call of its host, which was over the limit and
      whose wait ends with the quarantine. */
  lemma {:induction false} QuarantineHasACause(run: Run, k: Key, until: nat)
    requires IsRun(run) && InQuarantine(State(run), k, until) && until > Clock(run)
    ensures exists p :: 0 <= p < |run| && Bars(run[p], k, until)
  {
    var pre, c := Before(run), Last(run).call;
    if c.key == k && Last(run).answer.Exceeded? {
      LastExceeded(run, until);
      assert Bars(run[|run| - 1], k, until);
    } else {
      QuarantineWasBefore(run, k, until);
      LastStep(run);
      QuarantineHasACause(pre, k, until);
      var p :| 0 <= p < |pre| && Bars(pre[p], k, until);
      assert run[p] == pre[p];
    }
  }

  /** When all calls of a host are to services with a wait, its last call is turned away as waiting exactly
      when an earlier one was over the limit less than its wait ago, whatever the other hosts do. */
  lemma WaitingExactlyWhen(run: Run)
    requires run != [] && IsRun(run)
    requires forall p :: 0 <= p < |run| && run[p].call.key == Last(run).call.key ==> run[p].call.cpmwait > 0
    ensures Last(run).answer.Waiting?
       <==> exists p, until: nat :: 0 <= p < |run| - 1 && Bars(run[p], Last(run).call.key, until) && until > Clock(run)
  {
    var k := Last(run).call.key;
    if Last(run).answer.Waiting? {
      var until := WaitingInQuarantine(run);
      LastStep(run);
      QuarantineHasACause(Before(run), k, until);
      var p :| 0 <= p < |run| - 1 && Bars(Before(run)[p], k, until);
      assert Bars(run[p], k, until);
    }
    if p, until: nat :| 0 <= p < |run| - 1 && Bars(run[p], k, until) && until > Clock(run) {
      QuarantineHolds(run, p);
    }
  }

  /** A call that is turned away as waiting finds its host in quarantine. */
  lemma WaitingInQuarantine(run: Run) returns (until: nat)
    requires run != [] && IsRun(run) && Last(run).answer.Waiting?
    ensures InQuarantine(State(Before(run)), Last(run).call.key, until) && Clock(run) < until
  {
    var s, c := State(Before(run)), Last(run).call;
    LastStep(run);
    until := Served(s, c).dtime;
  }

  // ---- the recycle guard ---------------------------------------------------------------------

  /** The age test of the guard never decides: as long as the clock does not run backwards, an unknown
      host takes over the front record unless that one is in quarantine. */
  lemma OnlyQuarantineProtects(run: Run, now: nat)
    requires IsRun(run) && Clock(run) <= now && State(run) != []
    ensures Recyclable(State(run)[0], now) <==> now >= State(run)[0].dtime
  {
    ListInvariant(run);
  }

  /** A host loses its record exactly when an unknown host calls while the record is at the front and out of
      quarantine. */
  lemma LostExactlyWhen(run: Run, k: Key)
    requires run != [] && IsRun(run) && Known(State(Before(run)), k)
    ensures var s, c := State(Before(run)), Last(run).call;
            !Known(State(run), k) <==> !Known(s, c.key) && s[0].key == k && c.now >= s[0].dtime
  {
    var s, c, t := State(Before(run)), Last(run).call, State(run);
    var e := s[Find(s, k)];
    LastStep(run);
    ListInvariant(Before(run));
    if k != c.key {
      OtherHost(s, c, t, Last(run).answer, e);
      if !Known(s, c.key) && s[0].key == k && c.now >= s[0].dtime {
        assert t[..|t| - 1] == s[1..];
        assert forall i :: 0 <= i < |t| - 1 ==> t[i] == s[i + 1];
      }
    } else {
      assert t[|t| - 1].key == k;
    }
  }

  // ---- what the calls alone decide -----------------------------------------------------------

  function Calls(run: Run): (calls: seq<Call>)
    ensures |calls| == |run| && forall i :: 0 <= i < |run| ==> calls[i] == run[i].call
  {
    seq(|run|, i requires 0 <= i < |run| => run[i].call)
  }

  /** The pool had no memory for a first record up to now. */
  ghost predicate NoRoom(calls: seq<Call>) {
    forall i :: 0 <= i < |calls| ==> !calls[i].room
  }

  /** The ticks of the unbroken block of calls by one host at the end of `calls`, from the first call on that
      found memory. */
  ghost function Block(calls: seq<Call>): seq<nat> {
    if NoRoom(calls) then []
    else
      var pre, c := calls[..|calls| - 1], calls[|calls| - 1];
      (if pre != [] && pre[|pre| - 1].key == c.key then Block(pre) else []) + [Tick(c.now)]
  }

  /** The block at the end has more calls in the last six ticks than its last call may be one of. */
  ghost predicate BlockOverLimit(calls: seq<Call>)
    requires calls != []
  {
    var c := calls[|calls| - 1];
    !NoRoom(calls) && Within(Block(calls), Tick(c.now) - 5, Tick(c.now)) > c.maxcpm
  }

  /** No call of the run has put its host in quarantine. */
  ghost predicate NoQuarantine(run: Run) {
    forall p :: 0 <= p < |run| ==> !(run[p].answer.Exceeded? && run[p].call.cpmwait > 0)
  }

  /** The list holds no record, or one that is not barred. */
  ghost predicate AtMostOne(s: seq<Entry>) {
    |s| <= 1 && (s != [] ==> s[0].dtime == 0)
  }

  /** The one record goes from host to host. */
  lemma OneRecordStep(s: seq<Entry>, c: Call, t: seq<Entry>, v: Verdict)
    requires Steps(s, c, t, v) && AtMostOne(s) && InOrder(s, c.now)
    ensures if s == [] && !c.room then t == [] && v.Raised?
            else |t| == 1 && t[0].key == c.key && (v.Pass? || v.Exceeded?) && (v.Pass? || c.cpmwait <= 0 ==> t[0].dtime == 0)
  {
  }

  /** The record is that of the last caller, and remembers the block of calls at the end. */
  ghost predicate HoldsBlock(run: Run) {
    if NoRoom(Calls(run)) then State(run) == [] else
      |State(run)| == 1 && State(run)[0].key == Last(run).call.key && Life(run, Last(run).call.key) == Block(Calls(run))
  }

  lemma BlockGrows(run: Run)
    requires run != []
    ensures var pre, c := Before(run), Last(run).call;
            && (NoRoom(Calls(run)) <==> NoRoom(Calls(pre)) && !c.room)
            && var before := if pre != [] && Last(pre).call.key == c.key then Block(Calls(pre)) else [];
               NoRoom(Calls(run)) || Block(Calls(run)) == before + [Tick(c.now)]
  {
    assert Calls(run)[..|run| - 1] == Calls(Before(run));
  }

  lemma OneMoreCall(run: Run)
    requires run != [] && IsRun(run) && HoldsBlock(Before(run)) && AtMostOne(State(Before(run)))
    ensures HoldsBlock(run) && (Last(run).answer.Raised? <==> NoRoom(Calls(run))) && !Last(run).answer.Waiting?
    ensures NoQuarantine(run) ==> AtMostOne(State(run))
  {
    var pre, c := Before(run), Last(run).call;
    LastStep(run);
    ListInvariant(pre);
    OneRecordStep(State(pre), c, State(run), Last(run).answer);
    BlockGrows(run);
    if !NoRoom(Calls(run)) {
      assert Known(State(run), c.key);
      assert Known(State(pre), c.key) <==> !NoRoom(Calls(pre)) && Last(pre).call.key == c.key;
      assert Life(run, c.key) == Life(pre, c.key) + [Tick(c.now)];
    }
  }

  /** As long as no host is in quarantine there is one record at most: that of the last caller, and what it
      remembers is the block of calls at the end. */
  lemma {:induction false} OneRecord(run: Run)
    requires IsRun(run) && NoQuarantine(run)
    ensures HoldsBlock(run) && AtMostOne(State(run))
  {
    if run != [] {
      LastStep(run);
      OneRecord(Before(run));
      OneMoreCall(run);
    }
  }

  lemma LastIsServed(run: Run)
    requires run != [] && IsRun(run) && NoQuarantine(Before(run))
    ensures if NoRoom(Calls(run)) then Last(run).answer.Raised? else
              && Known(State(run), Last(run).call.key) && !Last(run).answer.Waiting?
              && Life(run, Last(run).call.key) == Block(Calls(run))
  {
    LastStep(run);
    OneRecord(Before(run));
    OneMoreCall(run);
  }

  /** So until a host is put in quarantine the answers follow from the calls alone: apart from missing
      memory, a call is over the limit exactly when the unbroken block of calls by its host that it ends has
      more than `maxcpm` calls in the last six ticks. */
  lemma AnswerFromCalls(run: Run)
    requires run != [] && IsRun(run) && InRange(run) && NoQuarantine(Before(run)) && Last(run).call.now >= 60
    ensures Last(run).answer == FromCalls(Calls(run))
  {
    hide Happened, Block, NoRoom;
    LastIsServed(run);
    if !NoRoom(Calls(run)) {
      AnswerIsExact(run);
    }
  }

  ghost function FromCalls(calls: seq<Call>): Verdict
    requires calls != []
  {
    if NoRoom(calls) then Raised else if BlockOverLimit(calls) then Exceeded else Pass
  }

  /** The block that ends with call `p` is over the limit. */
  ghost predicate OverAt(run: Run, p: nat)
    requires p < |run|
  {
    BlockOverLimit(Calls(run[..p + 1]))
  }

  lemma AnswerAt(run: Run, p: nat)
    requires IsRun(run) && InRange(run) && p < |run| && run[p].call.now >= 60
    requires NoQuarantine(run[..p])
    ensures run[p].answer == FromCalls(Calls(run[..p + 1])) && (run[p].answer.Exceeded? <==> OverAt(run, p))
  {
    PrefixIsRun(run, p + 1);
    assert Before(run[..p + 1]) == run[..p];
    AnswerFromCalls(run[..p + 1]);
  }

  /** Without waits the calls decide every answer of every run. */
  lemma AnswersWithoutWaits(run: Run, p: nat)
    requires IsRun(run) && InRange(run) && p < |run| && run[p].call.now >= 60
    requires forall q :: 0 <= q < p ==> run[q].call.cpmwait <= 0
    ensures run[p].answer == FromCalls(Calls(run)[..p + 1])
  {
    AnswerAt(run, p);
    assert Calls(run[..p + 1]) == Calls(run)[..p + 1];
  }

  /** Whatever the waits: some call of the run is over its limit exactly when some call ends an unbroken block
      of calls by its host that is.  Calls of one host that others interrupt are not added up. */
  lemma LimitedExactlyWhen(run: Run)
    requires IsRun(run) && InRange(run) && forall p :: 0 <= p < |run| ==> run[p].call.now >= 60
    ensures (exists p :: 0 <= p < |run| && run[p].answer.Exceeded?) <==> exists p :: 0 <= p < |run| && OverAt(run, p)
  {
    if p :| 0 <= p < |run| && run[p].answer.Exceeded? {
      var q := FirstExceeded(run, p);
      AnswerAt(run, q);
    } else if p :| 0 <= p < |run| && OverAt(run, p) {
      AnswerAt(run, p);
    }
  }

  lemma {:induction false} FirstExceeded(run: Run, p: nat) returns (q: nat)
    requires p < |run| && run[p].answer.Exceeded?
    ensures q <= p && run[q].answer.Exceeded? && forall i :: 0 <= i < q ==> !run[i].answer.Exceeded?
  {
    if i :| 0 <= i < p && run[i].answer.Exceeded? {
      q := FirstExceeded(run, i);
    } else {
      q := p;
    }
  }

  /** No two calls in a row come from the same host. */
  ghost predicate Interleaved(run: Run) {
    forall p :: 0 < p < |run| ==> run[p - 1].call.key != run[p].call.key
  }

  lemma {:induction false} FreshTotal(t: nat, n: nat)
    requires n <= CHTSIZE
    ensures Total(Bump(UNUSED, t), t, n) <= 1
    ensures n <= t % CHTSIZE ==> Total(Bump(UNUSED, t), t, n) == 0
  {
    if n > 0 { FreshTotal(t, n - 1); }
  }

  /** So hosts that take turns are never limited, however fast they call: each takes over the record
      of the one before, and only one record is ever in use. */
  lemma {:induction false} TakingTurnsIsNeverLimited(run: Run)
    requires IsRun(run) && Interleaved(run)
    requires forall p :: 0 <= p < |run| ==> run[p].call.maxcpm >= 1
    ensures run != [] ==> Last(run).answer.Pass? || Last(run).answer.Raised?
    ensures State(run) == [] ||
            (|State(run)| == 1 && State(run)[0].key == Last(run).call.key && State(run)[0].dtime == 0)
  {
    if run != [] {
      var pre, c := Before(run), Last(run).call;
      LastStep(run);
      TakingTurnsIsNeverLimited(pre);
      ListInvariant(pre);
      FreshTotal(Tick(c.now), CHTSIZE);
    }
  }
}
