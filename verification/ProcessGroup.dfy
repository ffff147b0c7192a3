/** Process group: the job-event task that pairs process notifications with tracked children, the
    queue of completed children, and the reaper that empties it. */
module ProcessGroup {

  type Pid = p: int | 0 < p witness 1

  /** A tracked child.  `serial` stands for the identity of the record that `track` allocates. */
  datatype Process = Process(serial: nat, pid: Pid, attempts: nat)

  /** What arrives at the completion port: job notifications, and the control packet of `track`. */
  datatype Message = NewProcess(pid: Pid) | ExitProcess(pid: Pid) | Track(process: Process)

  /** What waiting on a process handle may answer. */
  datatype Outcome = Signalled | Again | Failed

  /** The shared state.  `owed` counts completions whose SIGCHLD is still to be raised by the task,
      `signals` those raised and not yet handled by the main loop; `pushed` logs every record that
      ever entered the queue and `waits` every answer to a wait, by serial. */
  datatype Group = Group(
    processes: map<Pid, Process>,
    childids: set<Pid>,
    complete: seq<Process>,
    unmanaged: nat,
    owed: nat,
    signals: nat,
    pushed: seq<Process>,
    waits: seq<(nat, Outcome)>)

  const EMPTY := Group(map[], {}, [], 0, 0, 0, [], [])

  // ---- one message -------------------------------------------------------------------------

  function Complete(g: Group, p: Process): Group {
    g.(complete := g.complete + [p], pushed := g.pushed + [p], owed := g.owed + 1)
  }

  function OnMessage(g: Group, m: Message): Group {
    match m
    case NewProcess(pid) => g.(childids := g.childids + {pid})
    case ExitProcess(pid) =>
      var g' := if pid in g.processes
                then Complete(g.(processes := g.processes - {pid}), g.processes[pid])
                else g.(unmanaged := g.unmanaged + 1, owed := g.owed + 1);
      g'.(childids := g'.childids - {pid})
    case Track(p) =>
      if p.pid in g.childids
      then (if p.pid in g.processes then g else g.(processes := g.processes[p.pid := p]))
      else Complete(g, p)
  }

  // ---- the reference: what a history of messages means ---------------------------------------

  /** The last notification about `pid` says that it runs. */
  ghost predicate Alive(h: seq<Message>, pid: Pid) {
    if h == [] then false
    else match h[|h| - 1]
         case NewProcess(q) => q == pid || Alive(h[..|h| - 1], pid)
         case ExitProcess(q) => q != pid && Alive(h[..|h| - 1], pid)
         case Track(_) => Alive(h[..|h| - 1], pid)
  }

  /** No process with number `pid` starts in `h` strictly between the messages `i` and `j`. */
  ghost predicate SameLife(h: seq<Message>, pid: Pid, i: nat, j: nat)
    requires i < |h| && j < |h|
  {
    forall k :: (i < k < j || j < k < i) ==> h[k] != NewProcess(pid)
  }

  /** The tracking message at `i` and some exit message belong to the same life of its process. */
  ghost predicate ExitSeen(h: seq<Message>, i: nat)
    requires i < |h| && h[i].Track?
  {
    exists j: nat :: j < |h| && h[j] == ExitProcess(h[i].process.pid) && SameLife(h, h[i].process.pid, i, j)
  }

  /** The order of messages that the system guarantees: a number is announced before it exits or is
      tracked, exits once per life, is tracked at most once per life, and is not announced again
      while its life goes on; records are distinct and new. */
  ghost predicate Lawful(h: seq<Message>) {
    if h == [] then true
    else
      var past, n := h[..|h| - 1], |h| - 1;
      Lawful(past) &&
      match h[n]
      case NewProcess(pid) => !Alive(past, pid)
      case ExitProcess(pid) => Alive(past, pid)
      case Track(p) =>
        && p.attempts == 0
        && (exists i: nat :: i < n && h[i] == NewProcess(p.pid) && SameLife(h, p.pid, i, n))
        && (forall i: nat :: i < n && h[i].Track? ==> h[i].process.serial != p.serial)
        && (forall i: nat :: i < n && h[i].Track? && h[i].process.pid == p.pid ==> !SameLife(h, p.pid, i, n))
  }

  ghost function Run(h: seq<Message>): Group {
    if h == [] then EMPTY else OnMessage(Run(h[..|h| - 1]), h[|h| - 1])
  }

  ghost function Tracked(h: seq<Message>): (s: seq<Process>) {
    if h == [] then []
    else Tracked(h[..|h| - 1]) + if h[|h| - 1].Track? then [h[|h| - 1].process] else []
  }

  // ---- results for every history -----------------------------------------------------------

  /** For any order of messages at all, `childids` holds the numbers last announced as running. */
  lemma {:induction false} ChildIdsAreAlive(h: seq<Message>, pid: Pid)
    ensures pid in Run(h).childids <==> Alive(h, pid)
  {
    if h != [] {
      ChildIdsAreAlive(h[..|h| - 1], pid);
    }
  }

  /** For any order of messages: a tracking message completes its child on the spot exactly when the
      child is not announced as running at that moment. */
  lemma TrackCompletesAtOnce(h: seq<Message>, p: Process)
    ensures Run(h + [Track(p)]).pushed == Run(h).pushed + (if Alive(h, p.pid) then [] else [p])
  {
    assert (h + [Track(p)])[..|h|] == h;
    ChildIdsAreAlive(h, p.pid);
  }

  /** So a tracking message that overtakes the announcement reports a child that still runs, and the
      later exit counts as unmanaged. */
  lemma TrackBeforeNewReportsTooEarly(p: Process)
    ensures var h := [Track(p), NewProcess(p.pid)];
            && !Lawful(h)
            && Run(h).pushed == [p] && Alive(h, p.pid)
            && Run(h + [ExitProcess(p.pid)]).pushed == [p]
            && Run(h + [ExitProcess(p.pid)]).unmanaged == 1
  {
    var h := [Track(p), NewProcess(p.pid)];
    var e := h + [ExitProcess(p.pid)];
    assert h[..1] == [Track(p)] && h[..1][..0] == [] && e[..2] == h;
    assert !Lawful(h[..1]) by {
      assert h[..1][..|h[..1]| - 1] == [];
    }
    assert Run(h[..1]) == OnMessage(EMPTY, Track(p));
  }

  // ---- results for lawful histories --------------------------------------------------------

  /** A pending entry is the tracking message of a life that has not ended. */
  ghost predicate Pending(h: seq<Message>, i: nat) {
    i < |h| && h[i].Track? && !ExitSeen(h, i)
  }

  /** The table holds exactly the pending children. */
  ghost predicate TableFaithful(h: seq<Message>, processes: map<Pid, Process>) {
    && (forall pid :: pid in processes ==>
          exists i: nat :: Pending(h, i) && h[i].process == processes[pid] && processes[pid].pid == pid)
    && (forall i: nat :: Pending(h, i) ==>
          h[i].process.pid in processes && processes[h[i].process.pid] == h[i].process)
  }

  /** The queue has received exactly the children that were tracked and have exited, once each. */
  ghost predicate QueueFaithful(h: seq<Message>, pushed: seq<Process>) {
    && (forall p :: p in pushed ==> exists i: nat :: i < |h| && h[i] == Track(p) && ExitSeen(h, i))
    && (forall i: nat :: i < |h| && h[i].Track? && ExitSeen(h, i) ==> h[i].process in pushed)
    && (forall a, b :: 0 <= a < b < |pushed| ==> pushed[a].serial != pushed[b].serial)
  }

  /** The last notification about a running process is its announcement. */
  lemma {:induction false} LastNews(h: seq<Message>, pid: Pid) returns (k: nat)
    requires Alive(h, pid)
    ensures k < |h| && h[k] == NewProcess(pid)
    ensures forall j :: k < j < |h| ==> h[j] != NewProcess(pid) && h[j] != ExitProcess(pid)
  {
    var past, n := h[..|h| - 1], |h| - 1;
    if h[n] == NewProcess(pid) {
      k := n;
    } else {
      k := LastNews(past, pid);
      assert forall j :: 0 <= j < n ==> h[j] == past[j];
    }
  }

  /** A process that was announced and does not run has exited since. */
  lemma {:induction false} LastExit(h: seq<Message>, pid: Pid, i: nat) returns (k: nat)
    requires !Alive(h, pid) && i < |h| && h[i] == NewProcess(pid)
    ensures i < k < |h| && h[k] == ExitProcess(pid)
    ensures forall j :: k < j < |h| ==> h[j] != NewProcess(pid)
  {
    var past, n := h[..|h| - 1], |h| - 1;
    if h[n] == ExitProcess(pid) {
      k := n;
    } else {
      k := LastExit(past, pid, i);
      assert forall j :: 0 <= j < n ==> h[j] == past[j];
    }
  }

  lemma ExitSeenGrows(h: seq<Message>, m: Message, i: nat)
    requires i < |h| && h[i].Track?
    ensures var pid := h[i].process.pid;
            ExitSeen(h + [m], i) <==> ExitSeen(h, i) || (m == ExitProcess(pid) && SameLife(h + [m], pid, i, |h|))
  {
    var h' := h + [m];
    var pid := h[i].process.pid;
    if ExitSeen(h, i) {
      var j: nat :| j < |h| && h[j] == ExitProcess(pid) && SameLife(h, pid, i, j);
      assert h'[j] == ExitProcess(pid) && SameLife(h', pid, i, j);
    }
    if ExitSeen(h', i) {
      var j: nat :| j < |h'| && h'[j] == ExitProcess(pid) && SameLife(h', pid, i, j);
      if j < |h| {
        assert SameLife(h, pid, i, j) by {
          assert forall k :: 0 <= k < |h| ==> h'[k] == h[k];
        }
      }
    }
  }

  /** A tracking message whose child is still owed belongs to the life that goes on now. */
  lemma {:induction false} PendingIsCurrent(h: seq<Message>, i: nat)
    requires Lawful(h) && Pending(h, i)
    ensures Alive(h, h[i].process.pid)
    ensures forall k :: i < k < |h| ==> h[k] != NewProcess(h[i].process.pid)
  {
    var past, n := h[..|h| - 1], |h| - 1;
    var pid := h[i].process.pid;
    assert h == past + [h[n]];
    if i < n {
      ExitSeenGrows(past, h[n], i);
      PendingIsCurrent(past, i);
    } else {
      var i0: nat :| i0 < n && h[i0] == NewProcess(pid) && SameLife(h, pid, i0, n);
      if !Alive(past, pid) {
        var k := LastExit(past, pid, i0);
        assert SameLife(h, pid, n, k);
      }
    }
  }

  lemma {:induction false} SerialsAreDistinct(h: seq<Message>, i: nat, j: nat)
    requires Lawful(h) && i < j < |h| && h[i].Track? && h[j].Track?
    ensures h[i].process.serial != h[j].process.serial
  {
    if j < |h| - 1 {
      SerialsAreDistinct(h[..|h| - 1], i, j);
    }
  }

  /** A message that changes the fate of no tracked child. */
  lemma NothingCompletes(h: seq<Message>, m: Message, g: Group)
    requires TableFaithful(h, g.processes) && QueueFaithful(h, g.pushed) && !m.Track?
    requires forall i: nat :: i < |h| && h[i].Track? ==> (ExitSeen(h + [m], i) <==> ExitSeen(h, i))
    ensures TableFaithful(h + [m], g.processes) && QueueFaithful(h + [m], g.pushed)
  {
    var h' := h + [m];
    forall i: nat ensures Pending(h', i) <==> Pending(h, i) {
    }
    forall p | p in g.pushed ensures exists i: nat :: i < |h'| && h'[i] == Track(p) && ExitSeen(h', i) {
      var i: nat :| i < |h| && h[i] == Track(p) && ExitSeen(h, i);
      assert h'[i] == Track(p);
    }
    forall pid | pid in g.processes
      ensures exists i: nat :: Pending(h', i) && h'[i].process == g.processes[pid] && g.processes[pid].pid == pid
    {
      var i: nat :| Pending(h, i) && h[i].process == g.processes[pid] && g.processes[pid].pid == pid;
      assert Pending(h', i);
    }
  }

  /** The child tracked at `i` completes: its record leaves the table and enters the queue. */
  lemma OneCompletes(h: seq<Message>, m: Message, i: nat, processes: map<Pid, Process>, pushed: seq<Process>)
    requires i < |h| + 1 && (h + [m])[i].Track? && ExitSeen(h + [m], i) && (i < |h| ==> Pending(h, i))
    requires Lawful(h + [m]) && TableFaithful(h, processes) && QueueFaithful(h, pushed)
    requires forall j: nat :: j < |h| && h[j].Track? && j != i ==> (ExitSeen(h + [m], j) <==> ExitSeen(h, j))
    requires m.Track? ==> i == |h|
    ensures QueueFaithful(h + [m], pushed + [(h + [m])[i].process])
  {
    var h' := h + [m];
    var p := h'[i].process;
    var pushed' := pushed + [p];
    forall q | q in pushed
      ensures exists j: nat :: j < |h'| && h'[j] == Track(q) && ExitSeen(h', j)
      ensures q.serial != p.serial
    {
      var j: nat :| j < |h| && h[j] == Track(q) && ExitSeen(h, j);
      assert h'[j] == Track(q) && j != i;
      if j < i { SerialsAreDistinct(h', j, i); } else { SerialsAreDistinct(h', i, j); }
    }
    assert h'[i] == Track(p);
    forall j: nat | j < |h'| && h'[j].Track? && ExitSeen(h', j) ensures h'[j].process in pushed' {
      if j != i {
        assert h'[j] == h[j] && ExitSeen(h, j);
      }
    }
  }

  /** An exit message ends the life of every pending child with its number. */
  lemma ExitEndsLife(h: seq<Message>, pid: Pid, j: nat)
    requires Lawful(h) && j < |h| && h[j].Track?
    ensures ExitSeen(h + [ExitProcess(pid)], j) <==> ExitSeen(h, j) || h[j].process.pid == pid
  {
    var m := ExitProcess(pid);
    ExitSeenGrows(h, m, j);
    if Pending(h, j) && h[j].process.pid == pid {
      PendingIsCurrent(h, j);
      assert SameLife(h + [m], pid, j, |h|);
    }
  }

  lemma PendingNumbersDiffer(h: seq<Message>, processes: map<Pid, Process>, i: nat, j: nat)
    requires Lawful(h) && TableFaithful(h, processes) && Pending(h, i) && Pending(h, j)
    requires h[i].process.pid == h[j].process.pid
    ensures i == j
  {
    if j < i { SerialsAreDistinct(h, j, i); } else if i < j { SerialsAreDistinct(h, i, j); }
  }

  lemma StepExit(h: seq<Message>, pid: Pid, g: Group)
    requires Lawful(h) && Lawful(h + [ExitProcess(pid)])
    requires TableFaithful(h, g.processes) && QueueFaithful(h, g.pushed)
    ensures var g' := OnMessage(g, ExitProcess(pid));
            TableFaithful(h + [ExitProcess(pid)], g'.processes) && QueueFaithful(h + [ExitProcess(pid)], g'.pushed)
  {
    var m := ExitProcess(pid);
    forall j: nat | j < |h| && h[j].Track?
      ensures ExitSeen(h + [m], j) <==> ExitSeen(h, j) || h[j].process.pid == pid
    {
      ExitEndsLife(h, pid, j);
    }
    if pid in g.processes {
      var i := OwnerOf(h, g.processes, pid);
      forall j: nat | Pending(h, j) && h[j].process.pid == pid ensures j == i {
        PendingNumbersDiffer(h, g.processes, i, j);
      }
      OneCompletes(h, m, i, g.processes, g.pushed);
      TableLoses(h, m, pid, g.processes);
    } else {
      NothingCompletes(h, m, g);
    }
  }

  lemma OwnerOf(h: seq<Message>, processes: map<Pid, Process>, pid: Pid) returns (i: nat)
    requires TableFaithful(h, processes) && pid in processes
    ensures Pending(h, i) && h[i].process == processes[pid] && h[i].process.pid == pid
  {
    i :| Pending(h, i) && h[i].process == processes[pid] && processes[pid].pid == pid;
  }

  lemma TableLoses(h: seq<Message>, m: Message, pid: Pid, processes: map<Pid, Process>)
    requires TableFaithful(h, processes) && !m.Track?
    requires forall j: nat :: j < |h| && h[j].Track? ==>
               (ExitSeen(h + [m], j) <==> ExitSeen(h, j) || h[j].process.pid == pid)
    ensures TableFaithful(h + [m], processes - {pid})
  {
    var h', after := h + [m], processes - {pid};
    forall q | q in after
      ensures exists j: nat :: Pending(h', j) && h'[j].process == after[q] && after[q].pid == q
    {
      var j := OwnerOf(h, processes, q);
      assert Pending(h', j);
    }
    forall j: nat | Pending(h', j)
      ensures h'[j].process.pid in after && after[h'[j].process.pid] == h'[j].process
    {
      assert Pending(h, j);
    }
  }

  lemma TableGains(h: seq<Message>, p: Process, processes: map<Pid, Process>)
    requires TableFaithful(h, processes)
    requires forall j: nat :: j < |h| && h[j].Track? ==> (ExitSeen(h + [Track(p)], j) <==> ExitSeen(h, j))
    requires !ExitSeen(h + [Track(p)], |h|) && p.pid !in processes
    ensures TableFaithful(h + [Track(p)], processes[p.pid := p])
  {
    var h', after := h + [Track(p)], processes[p.pid := p];
    forall q | q in after
      ensures exists j: nat :: Pending(h', j) && h'[j].process == after[q] && after[q].pid == q
    {
      if q == p.pid {
        assert Pending(h', |h|);
      } else {
        var j := OwnerOf(h, processes, q);
        assert Pending(h', j);
      }
    }
    forall j: nat | Pending(h', j)
      ensures h'[j].process.pid in after && after[h'[j].process.pid] == h'[j].process
    {
      assert j < |h| ==> Pending(h, j);
    }
  }

  lemma TableStays(h: seq<Message>, p: Process, processes: map<Pid, Process>)
    requires TableFaithful(h, processes)
    requires forall j: nat :: j < |h| && h[j].Track? ==> (ExitSeen(h + [Track(p)], j) <==> ExitSeen(h, j))
    requires ExitSeen(h + [Track(p)], |h|)
    ensures TableFaithful(h + [Track(p)], processes)
  {
    var h' := h + [Track(p)];
    forall q | q in processes
      ensures exists j: nat :: Pending(h', j) && h'[j].process == processes[q] && processes[q].pid == q
    {
      var j := OwnerOf(h, processes, q);
      assert Pending(h', j);
    }
    forall j: nat | Pending(h', j)
      ensures h'[j].process.pid in processes && processes[h'[j].process.pid] == h'[j].process
    {
      assert j < |h| && Pending(h, j);
    }
  }

  lemma QueueStays(h: seq<Message>, p: Process, pushed: seq<Process>)
    requires QueueFaithful(h, pushed)
    requires forall j: nat :: j < |h| && h[j].Track? ==> (ExitSeen(h + [Track(p)], j) <==> ExitSeen(h, j))
    requires !ExitSeen(h + [Track(p)], |h|)
    ensures QueueFaithful(h + [Track(p)], pushed)
  {
    var h' := h + [Track(p)];
    forall q | q in pushed ensures exists i: nat :: i < |h'| && h'[i] == Track(q) && ExitSeen(h', i) {
      var i: nat :| i < |h| && h[i] == Track(q) && ExitSeen(h, i);
      assert h'[i] == Track(q);
    }
  }

  /** Tracking a running child: its exit is still to come. */
  lemma TrackRunning(h: seq<Message>, p: Process)
    requires Alive(h, p.pid)
    ensures !ExitSeen(h + [Track(p)], |h|)
  {
    var h', n := h + [Track(p)], |h|;
    var k := LastNews(h, p.pid);
    forall j: nat | j < |h'| && h'[j] == ExitProcess(p.pid) ensures !SameLife(h', p.pid, n, j) {
      assert h[j] == h'[j] && j < k && h'[k] == NewProcess(p.pid);
    }
  }

  /** The number of a child about to be tracked is not in the table. */
  lemma TrackNumberIsFree(h: seq<Message>, p: Process, processes: map<Pid, Process>)
    requires Lawful(h + [Track(p)]) && TableFaithful(h, processes)
    ensures Lawful(h) && p.pid !in processes
  {
    var h' := h + [Track(p)];
    assert h'[..|h'| - 1] == h;
    if p.pid in processes {
      var j := OwnerOf(h, processes, p.pid);
      PendingIsCurrent(h, j);
      assert SameLife(h', p.pid, j, |h|);
      assert false;
    }
  }

  /** Tracking a child that has gone: its exit is the last notification about it. */
  lemma TrackGone(h: seq<Message>, p: Process)
    requires Lawful(h + [Track(p)]) && !Alive(h, p.pid)
    ensures ExitSeen(h + [Track(p)], |h|)
  {
    var h', n := h + [Track(p)], |h|;
    assert h'[..|h'| - 1] == h;
    var i0: nat :| i0 < n && h'[i0] == NewProcess(p.pid) && SameLife(h', p.pid, i0, n);
    var k := LastExit(h, p.pid, i0);
    assert h'[k] == ExitProcess(p.pid) && SameLife(h', p.pid, n, k);
  }

  lemma StepTrack(h: seq<Message>, p: Process, g: Group)
    requires Lawful(h + [Track(p)]) && TableFaithful(h, g.processes) && QueueFaithful(h, g.pushed)
    requires p.pid in g.childids <==> Alive(h, p.pid)
    ensures var g' := OnMessage(g, Track(p));
            TableFaithful(h + [Track(p)], g'.processes) && QueueFaithful(h + [Track(p)], g'.pushed)
  {
    forall j: nat | j < |h| && h[j].Track? ensures ExitSeen(h + [Track(p)], j) <==> ExitSeen(h, j) {
      ExitSeenGrows(h, Track(p), j);
    }
    TrackNumberIsFree(h, p, g.processes);
    if Alive(h, p.pid) {
      TrackRunning(h, p);
      TableGains(h, p, g.processes);
      QueueStays(h, p, g.pushed);
    } else {
      TrackGone(h, p);
      TableStays(h, p, g.processes);
      OneCompletes(h, Track(p), |h|, g.processes, g.pushed);
    }
  }

  /** Main result: under every lawful interleaving the table holds exactly the tracked children that
      have not exited, and the queue has received exactly those that have, once each. */
  lemma {:induction false} CompletesExactlyOnce(h: seq<Message>)
    requires Lawful(h)
    ensures TableFaithful(h, Run(h).processes) && QueueFaithful(h, Run(h).pushed)
  {
    if h != [] {
      var past, m := h[..|h| - 1], h[|h| - 1];
      assert h == past + [m];
      var g := Run(past);
      CompletesExactlyOnce(past);
      match m
      case NewProcess(pid) =>
        forall i: nat | i < |past| && past[i].Track? ensures ExitSeen(h, i) <==> ExitSeen(past, i) {
          ExitSeenGrows(past, m, i);
        }
        NothingCompletes(past, m, g);
      case ExitProcess(pid) =>
        StepExit(past, pid, g);
      case Track(p) =>
        ChildIdsAreAlive(past, p.pid);
        StepTrack(past, p, g);
    }
  }

  lemma TableSize<T>(m: map<Pid, T>, k: Pid, v: T)
    ensures |m - {k}| == if k in m then |m| - 1 else |m|
    ensures |m[k := v]| == if k in m then |m| else |m| + 1
  {
    assert (m - {k}).Keys == m.Keys - {k};
    assert m[k := v].Keys == m.Keys + {k};
  }

  lemma MessageConserves(g: Group, m: Message)
    requires m.Track? ==> m.process.pid !in g.processes
    ensures var g' := OnMessage(g, m);
            |g'.processes| + |g'.pushed| == |g.processes| + |g.pushed| + if m.Track? then 1 else 0
  {
    match m
    case NewProcess(_) =>
    case ExitProcess(pid) =>
      if pid in g.processes { TableSize(g.processes, pid, g.processes[pid]); }
    case Track(p) =>
      TableSize(g.processes, p.pid, p);
  }

  /** One signal is raised for each completed child and each exit of an unmanaged process, and for nothing else. */
  lemma {:induction false} SignalsAreExact(h: seq<Message>)
    ensures var g := Run(h); g.owed == |g.complete| + g.unmanaged && g.pushed == g.complete && g.signals == 0
  {
    if h != [] { SignalsAreExact(h[..|h| - 1]); }
  }

  /** Conservation: every tracked child is either in the table or has entered the queue. */
  lemma {:induction false} TrackedIsPendingPlusCompleted(h: seq<Message>)
    requires Lawful(h)
    ensures |Tracked(h)| == |Run(h).processes| + |Run(h).pushed|
  {
    if h != [] {
      var past, m := h[..|h| - 1], h[|h| - 1];
      assert h == past + [m];
      TrackedIsPendingPlusCompleted(past);
      CompletesExactlyOnce(past);
      if m.Track? {
        TrackNumberIsFree(past, m.process, Run(past).processes);
      }
      MessageConserves(Run(past), m);
    }
  }

  /** When every announced process has exited, both tables are empty and every tracked child has
      entered the queue. */
  lemma TablesDrain(h: seq<Message>)
    requires Lawful(h) && forall pid :: !Alive(h, pid)
    ensures Run(h).childids == {} && Run(h).processes == map[] && |Run(h).pushed| == |Tracked(h)|
  {
    forall pid ensures pid !in Run(h).childids && pid !in Run(h).processes {
      ChildIdsAreAlive(h, pid);
      CompletesExactlyOnce(h);
      if pid in Run(h).processes {
        var i := OwnerOf(h, Run(h).processes, pid);
        PendingIsCurrent(h, i);
        assert false;
      }
    }
    assert Run(h).processes.Keys == {};
    TrackedIsPendingPlusCompleted(h);
  }

  lemma {:induction false} TracksAreFresh(h: seq<Message>, i: nat)
    requires Lawful(h) && i < |h| && h[i].Track?
    ensures h[i].process.attempts == 0
  {
    if i < |h| - 1 {
      TracksAreFresh(h[..|h| - 1], i);
    }
  }
}
