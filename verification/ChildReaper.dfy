/** The other half of the process group: SIGCHLD delivery and the non-blocking wait that the main
    loop uses to reap completed children, running concurrently with the job-event task. */
module ChildReaper {
  import opened ProcessGroup

  /** The answer of `wait`: a process number, or -1. */
  datatype WaitResult = Child(pid: Pid) | MinusOne

  const MAX_ATTEMPTS := 3

  function Raise(g: Group): Group
    requires g.owed > 0
  {
    g.(owed := g.owed - 1, signals := g.signals + 1)
  }

  /** The second half of `wait(nohang)`: the record `p` is off the queue, and its handle answers `o`.  A record
      that is to be tried again goes to the end of the queue, with a new signal. */
  function Answer(g: Group, p: Process, o: Outcome): (Group, WaitResult) {
    var g' := g.(waits := g.waits + [(p.serial, o)]);
    match o
    case Signalled => (g', Child(p.pid))
    case Again =>
      if p.attempts + 1 < MAX_ATTEMPTS
      then (g'.(complete := g'.complete + [p.(attempts := p.attempts + 1)], signals := g'.signals + 1), MinusOne)
      else (g', MinusOne)
    case Failed => (g', MinusOne)
  }

  /** `wait(nohang)` without interruption. */
  function Wait(g: Group, o: Outcome): (Group, WaitResult) {
    if g.complete == [] then (g, MinusOne)
    else Answer(g.(complete := g.complete[1..]), g.complete[0], o)
  }

  /** `reapchildren` without interruption: wait until there is no positive answer.  `oracle` answers the
      waits. */
  function Reap(g: Group, oracle: nat -> Outcome, i: nat): Group
    decreases |g.complete|
  {
    var (g', r) := Wait(g, oracle(i));
    if r.Child? then Reap(g', oracle, i + 1) else g'
  }

  /** The process numbers handed to `reapchild` on the way. */
  function Reaped(g: Group, oracle: nat -> Outcome, i: nat): seq<Pid>
    decreases |g.complete|
  {
    var (g', r) := Wait(g, oracle(i));
    if r.Child? then [r.pid] + Reaped(g', oracle, i + 1) else []
  }

  // ---- what a wait reports -------------------------------------------------------------------

  /** How many records at the front of the queue have handles that are signalled, one after the other. */
  function Ready(queue: seq<Process>, oracle: nat -> Outcome, i: nat): (n: nat)
    ensures n <= |queue|
  {
    if queue == [] || oracle(i) != Signalled then 0 else 1 + Ready(queue[1..], oracle, i + 1)
  }

  function Numbers(queue: seq<Process>): seq<Pid> {
    if queue == [] then [] else [queue[0].pid] + Numbers(queue[1..])
  }

  /** Reaping reports the children at the front of the queue, in order, up to the first whose handle is not
      signalled. */
  lemma {:induction false} ReapedInOrder(g: Group, oracle: nat -> Outcome, i: nat)
    ensures Reaped(g, oracle, i) == Numbers(g.complete[..Ready(g.complete, oracle, i)])
    decreases |g.complete|
  {
    if g.complete != [] && oracle(i) == Signalled {
      var g', n := Wait(g, oracle(i)).0, Ready(g.complete[1..], oracle, i + 1);
      ReapedInOrder(g', oracle, i + 1);
      assert g.complete[..1 + n][1..] == g.complete[1..][..n];
    }
  }

  lemma {:induction false} ReadyMeans(queue: seq<Process>, oracle: nat -> Outcome, i: nat)
    ensures var n := Ready(queue, oracle, i);
            && (forall k :: i <= k < i + n ==> oracle(k) == Signalled)
            && (n < |queue| ==> oracle(i + n) != Signalled)
  {
    if queue != [] && oracle(i) == Signalled {
      ReadyMeans(queue[1..], oracle, i + 1);
    }
  }

  lemma {:induction false} NumbersAt(queue: seq<Process>, k: nat)
    requires k < |queue|
    ensures |Numbers(queue)| == |queue| && Numbers(queue)[k] == queue[k].pid
  {
    if |queue| > 1 { NumbersAt(queue[1..], if k > 0 then k - 1 else 0); }
  }

  // ---- both threads --------------------------------------------------------------------------

  /** Where the main loop stands: outside `reapchildren`, inside it, or inside a wait with a record that it
      has taken off the queue. */
  datatype Stage = Idle | Reaping | InHand(p: Process)

  datatype System = System(group: Group, stage: Stage)

  const START := System(EMPTY, Idle)

  /** One step of either thread, no larger than what one lock covers: the task handles a message, or
      raises a signal it owes; the main loop takes a signal, takes the first record off the queue or
      finds it empty, or learns what the handle of that record answers. */
  datatype Event = Arrives(m: Message) | Raises | Takes | Pops | Answered(o: Outcome)

  predicate Enabled(x: System, e: Event) {
    match e
    case Arrives(_) => true
    case Raises => x.group.owed > 0
    case Takes => x.stage.Idle? && x.group.signals > 0
    case Pops => x.stage.Reaping?
    case Answered(_) => x.stage.InHand?
  }

  function Step(x: System, e: Event): System
    requires Enabled(x, e)
  {
    var g := x.group;
    match e
    case Arrives(m) => x.(group := OnMessage(g, m))
    case Raises => x.(group := Raise(g))
    case Takes => System(g.(signals := g.signals - 1), Reaping)
    case Pops =>
      if g.complete == [] then x.(stage := Idle)
      else System(g.(complete := g.complete[1..]), InHand(g.complete[0]))
    case Answered(o) =>
      var (g', r) := Answer(g, x.stage.p, o);
      System(g', if r.Child? then Reaping else Idle)
  }

  ghost function Messages(es: seq<Event>): seq<Message> {
    if es == [] then []
    else Messages(es[..|es| - 1]) + if es[|es| - 1].Arrives? then [es[|es| - 1].m] else []
  }

  /** The system after the events `es`; an event that is not enabled does not happen. */
  function Exec(x: System, es: seq<Event>): System {
    if es == [] then x
    else
      var y, e := Exec(x, es[..|es| - 1]), es[|es| - 1];
      if Enabled(y, e) then Step(y, e) else y
  }

  /** The steps of an uninterrupted `reapchildren`. */
  function ReapSteps(g: Group, oracle: nat -> Outcome, i: nat): seq<Event>
    decreases |g.complete|
  {
    if g.complete == [] then [Pops]
    else
      var (g', r) := Wait(g, oracle(i));
      [Pops, Answered(oracle(i))] + if r.Child? then ReapSteps(g', oracle, i + 1) else []
  }

  lemma {:induction false} ExecJoins(x: System, a: seq<Event>, b: seq<Event>)
    ensures Exec(x, a + b) == Exec(Exec(x, a), b)
  {
    if b == [] {
      assert a + b == a;
    } else {
      ExecJoins(x, a, b[..|b| - 1]);
      assert (a + b)[..|a + b| - 1] == a + b[..|b| - 1];
    }
  }

  lemma WaitInSteps(g: Group, o: Outcome)
    requires g.complete != []
    ensures var (g', r) := Wait(g, o);
            Exec(System(g, Reaping), [Pops, Answered(o)]) == System(g', if r.Child? then Reaping else Idle)
  {
    var x := System(g, Reaping);
    assert [Pops, Answered(o)][..1] == [Pops] && [Pops][..0] == [];
    assert Exec(x, [Pops]) == Step(x, Pops);
  }

  /** Run without interruption, the small steps make up what `reapchildren` does. */
  lemma {:induction false} ReapInSteps(g: Group, oracle: nat -> Outcome, i: nat)
    ensures Exec(System(g, Reaping), ReapSteps(g, oracle, i)) == System(Reap(g, oracle, i), Idle)
    decreases |g.complete|
  {
    if g.complete == [] {
      assert [Pops][..0] == [];
    } else {
      var (g', r) := Wait(g, oracle(i));
      var first := [Pops, Answered(oracle(i))];
      WaitInSteps(g, oracle(i));
      if r.Child? {
        ReapInSteps(g', oracle, i + 1);
        ExecJoins(System(g, Reaping), first, ReapSteps(g', oracle, i + 1));
      } else {
        assert first + [] == first;
      }
    }
  }

  /** The group as if the record in hand were still at the front of the queue. */
  function Whole(x: System): Group {
    if x.stage.InHand? then x.group.(complete := [x.stage.p] + x.group.complete) else x.group
  }

  // ---- no wake-up is lost --------------------------------------------------------------------

  /** Every record in the queue or in hand has a signal of its own, pending or about to be raised; one
      record needs none while the main loop is reaping. */
  ghost predicate Awake(x: System) {
    x.group.signals + x.group.owed + (if x.stage.Idle? then 0 else 1) >= |Whole(x).complete|
  }

  /** Under every interleaving of the two threads, each completed child that is still in the queue or in
      hand is covered by a SIGCHLD that is pending or about to be raised, or by the reaping that goes on. */
  lemma {:induction false} NoWakeupIsLost(es: seq<Event>)
    ensures Awake(Exec(START, es))
  {
    if es != [] {
      NoWakeupIsLost(es[..|es| - 1]);
    }
  }

  // ---- the fate of every completed child --------------------------------------------------------

  /** The answers that waits on the record `serial` received, in order. */
  ghost function Answers(waits: seq<(nat, Outcome)>, serial: nat): (s: seq<Outcome>) {
    if waits == [] then []
    else
      var n := |waits| - 1;
      Answers(waits[..n], serial) + if waits[n].0 == serial then [waits[n].1] else []
  }

  ghost predicate AllAgain(os: seq<Outcome>) {
    forall i :: 0 <= i < |os| ==> os[i] == Again
  }

  /** Still in the queue: fewer than three answers, all of them "try again". */
  ghost predicate Waiting(os: seq<Outcome>) {
    |os| < 3 && AllAgain(os)
  }

  /** Reported to the caller by its last answer, at the third wait or before. */
  ghost predicate Reported(os: seq<Outcome>) {
    0 < |os| <= 3 && os[|os| - 1] == Signalled && AllAgain(os[..|os| - 1])
  }

  /** Dropped without a report: the wait failed, or said "try again" for the third time. */
  ghost predicate Lost(os: seq<Outcome>) {
    && 0 < |os| <= 3 && AllAgain(os[..|os| - 1])
    && (os[|os| - 1] == Failed || (|os| == 3 && os[|os| - 1] == Again))
  }

  ghost predicate DistinctSerials(s: seq<Process>) {
    forall a, b :: 0 <= a < b < |s| ==> s[a].serial != s[b].serial
  }

  ghost function Serials(s: seq<Process>): set<nat> {
    set p | p in s :: p.serial
  }

  /** The record `p` is queued with as many attempts as it had answers, or was reported, or is lost. */
  ghost predicate HasFate(p: Process, g: Group) {
    var os := Answers(g.waits, p.serial);
    p.attempts == 0 && ((Waiting(os) && p.(attempts := |os|) in g.complete) || Reported(os) || Lost(os))
  }

  /** A queue entry is a record that entered, with its answers counted. */
  ghost predicate IsQueued(q: Process, g: Group) {
    var os := Answers(g.waits, q.serial);
    q.(attempts := 0) in g.pushed && q.attempts == |os| && Waiting(os)
  }

  ghost predicate Fated(g: Group) {
    && DistinctSerials(g.pushed) && DistinctSerials(g.complete)
    && (forall p :: p in g.pushed ==> HasFate(p, g))
    && (forall q :: q in g.complete ==> IsQueued(q, g))
    && (forall s: nat :: Answers(g.waits, s) != [] ==> s in Serials(g.pushed))
  }

  lemma {:induction false} AnswersGrow(waits: seq<(nat, Outcome)>, serial: nat, o: Outcome, other: nat)
    ensures Answers(waits + [(serial, o)], other)
            == Answers(waits, other) + if other == serial then [o] else []
  {
    assert (waits + [(serial, o)])[..|waits|] == waits;
  }

  lemma WaitAnswers(g: Group, o: Outcome, s: nat)
    requires g.complete != []
    ensures Answers(Wait(g, o).0.waits, s) == Answers(g.waits, s) + if s == g.complete[0].serial then [o] else []
  {
    AnswersGrow(g.waits, g.complete[0].serial, o, s);
  }

  /** The record that is waited on moves along its fate. */
  lemma WaitedRecord(g: Group, o: Outcome)
    requires Fated(g) && g.complete != []
    ensures HasFate(g.complete[0].(attempts := 0), Wait(g, o).0)
  {
    var q := g.complete[0];
    var g' := Wait(g, o).0;
    var os := Answers(g.waits, q.serial);
    WaitAnswers(g, o, q.serial);
    assert IsQueued(q, g) && (os + [o])[..|os|] == os;
    if o == Again && q.attempts + 1 < MAX_ATTEMPTS {
      assert g'.complete[|g'.complete| - 1] == q.(attempts := |os + [o]|);
    }
  }

  lemma OtherRecord(g: Group, o: Outcome, p: Process)
    requires Fated(g) && g.complete != [] && HasFate(p, g) && p.serial != g.complete[0].serial
    ensures HasFate(p, Wait(g, o).0)
  {
    var g' := Wait(g, o).0;
    WaitAnswers(g, o, p.serial);
    var r := p.(attempts := |Answers(g.waits, p.serial)|);
    if r in g.complete {
      assert r in g.complete[1..];
      assert r in g'.complete;
    }
  }

  /** Others in the queue are not waited on. */
  lemma OtherQueued(g: Group, o: Outcome, r: Process)
    requires Fated(g) && g.complete != [] && r in g.complete[1..]
    ensures r.serial != g.complete[0].serial && IsQueued(r, Wait(g, o).0)
  {
    WaitAnswers(g, o, r.serial);
    assert IsQueued(r, g);
  }

  lemma QueueAfterWait(g: Group, o: Outcome)
    requires Fated(g) && g.complete != []
    ensures var g' := Wait(g, o).0;
            DistinctSerials(g'.complete) && forall r :: r in g'.complete ==> IsQueued(r, g')
  {
    hide Answers, HasFate, Serials;
    var q, rest := g.complete[0], g.complete[1..];
    var g' := Wait(g, o).0;
    assert IsQueued(q, g);
    WaitAnswers(g, o, q.serial);
    forall r | r in rest ensures r.serial != q.serial && IsQueued(r, g') {
      OtherQueued(g, o, r);
    }
    assert DistinctSerials(rest);
    assert g'.complete == rest || g'.complete == rest + [q.(attempts := q.attempts + 1)];
  }

  /** One wait moves at most one record, and along its fate. */
  lemma WaitKeepsFates(g: Group, o: Outcome)
    requires Fated(g)
    ensures Fated(Wait(g, o).0)
  {
    if g.complete != [] {
      var q := g.complete[0];
      var g' := Wait(g, o).0;
      QueueAfterWait(g, o);
      forall p | p in g.pushed ensures HasFate(p, g') {
        assert IsQueued(q, g) && HasFate(p, g);
        if p.serial == q.serial {
          assert p == q.(attempts := 0);
          WaitedRecord(g, o);
        } else {
          OtherRecord(g, o, p);
        }
      }
      forall s: nat | Answers(g'.waits, s) != [] ensures s in Serials(g.pushed) {
        WaitAnswers(g, o, s);
        assert IsQueued(q, g) && q.(attempts := 0).serial == q.serial;
      }
    }
  }

  lemma MessagesGrow(es: seq<Event>)
    requires es != []
    ensures var past, e, h := Messages(es[..|es| - 1]), es[|es| - 1], Messages(es);
            if e.Arrives? then |h| == |past| + 1 && h[..|h| - 1] == past && h[|h| - 1] == e.m else h == past
  {
  }

  /** The parts of the group that only the job-event task changes. */
  ghost predicate SameTables(g: Group, r: Group) {
    g.processes == r.processes && g.childids == r.childids && g.pushed == r.pushed
  }

  lemma MessageOnTables(g: Group, r: Group, m: Message)
    requires SameTables(g, r)
    ensures SameTables(OnMessage(g, m), OnMessage(r, m))
  {
  }

  lemma StepOnTables(x: System, e: Event)
    requires Enabled(x, e)
    ensures if e.Arrives? then Step(x, e).group == OnMessage(x.group, e.m) else SameTables(Step(x, e).group, x.group)
  {
  }

  /** Interleaving with the reaper leaves the task's tables and log as the messages alone make them. */
  lemma {:induction false} ReapingIsIndependent(es: seq<Event>)
    ensures SameTables(Exec(START, es).group, Run(Messages(es)))
  {
    if es != [] {
      var past, e := es[..|es| - 1], es[|es| - 1];
      var x := Exec(START, past);
      ReapingIsIndependent(past);
      MessagesGrow(es);
      if Enabled(x, e) {
        StepOnTables(x, e);
      }
      if e.Arrives? {
        MessageOnTables(x.group, Run(Messages(past)), e.m);
      }
    }
  }

  /** A record that completes is new to the queue and has not been waited on. */
  lemma CompletionIsNew(h: seq<Message>, g: Group, p: Process)
    requires Lawful(h) && QueueFaithful(h, Complete(g, p).pushed)
    ensures p.attempts == 0 && p.serial !in Serials(g.pushed)
  {
    var pushed := Complete(g, p).pushed;
    assert pushed[|g.pushed|] == p && p in pushed;
    var i: nat :| i < |h| && h[i] == Track(p) && ExitSeen(h, i);
    TracksAreFresh(h, i);
    forall q | q in g.pushed ensures q.serial != p.serial {
      var a :| 0 <= a < |g.pushed| && g.pushed[a] == q;
      assert pushed[a] == q;
    }
  }

  lemma CompletionAddsFate(g: Group, p: Process)
    requires Fated(g) && p.attempts == 0 && p.serial !in Serials(g.pushed)
    ensures Fated(Complete(g, p))
  {
    var g' := Complete(g, p);
    assert g'.complete[|g.complete|] == p && p in g'.pushed;
    forall q | q in g.complete ensures q.serial != p.serial && IsQueued(q, g') {
      assert IsQueued(q, g) && q.(attempts := 0).serial in Serials(g.pushed);
    }
    forall q | q in g'.pushed ensures HasFate(q, g') {
      if q in g.pushed {
        assert HasFate(q, g);
      } else {
        assert p.(attempts := 0) == p;
      }
    }
    forall s: nat | Answers(g.waits, s) != [] ensures s in Serials(g'.pushed) {
      var q :| q in g.pushed && q.serial == s;
      assert q in g'.pushed;
    }
  }

  lemma CompletionKeepsFates(h: seq<Message>, g: Group, p: Process)
    requires Fated(g) && Lawful(h) && QueueFaithful(h, Complete(g, p).pushed)
    ensures Fated(Complete(g, p))
  {
    CompletionIsNew(h, g, p);
    CompletionAddsFate(g, p);
  }

  lemma MessageKeepsFates(h: seq<Message>, g: Group, m: Message)
    requires Fated(g) && Lawful(h) && QueueFaithful(h, OnMessage(g, m).pushed)
    ensures Fated(OnMessage(g, m))
  {
    match m
    case NewProcess(_) =>
    case ExitProcess(pid) =>
      if pid in g.processes {
        CompletionKeepsFates(h, g, g.processes[pid]);
      }
    case Track(p) =>
      if p.pid !in g.childids {
        CompletionKeepsFates(h, g, p);
      }
  }

  /** A step of the system seen on the whole queue: a message or an answer, or nothing that matters to any
      record's fate. */
  lemma StepOnWhole(x: System, e: Event)
    requires Enabled(x, e)
    ensures var g, g' := Whole(x), Whole(Step(x, e));
            match e
            case Arrives(m) => g' == OnMessage(g, m)
            case Answered(o) => g' == Wait(g, o).0
            case _ => g'.pushed == g.pushed && g'.complete == g.complete && g'.waits == g.waits
  {
    if x.stage.InHand? {
      var p, c := x.stage.p, x.group.complete;
      assert ([p] + c)[1..] == c;
      assert forall q :: [p] + (c + [q]) == [p] + c + [q];
    }
  }

  lemma SameFates(g: Group, g': Group)
    requires Fated(g) && g'.pushed == g.pushed && g'.complete == g.complete && g'.waits == g.waits
    ensures Fated(g')
  {
    assert forall p :: HasFate(p, g) ==> HasFate(p, g');
    assert forall q :: IsQueued(q, g) ==> IsQueued(q, g');
  }

  /** Main result: under every interleaving of lawful messages, signals and steps of the reaper, each
      child that was tracked and has exited is waited on at most three times and is then either queued
      or in hand, or has been reported exactly once by its last wait, or was dropped because that wait
      failed or timed out for the third time. */
  lemma {:induction false} EveryChildHasOneFate(es: seq<Event>)
    requires Lawful(Messages(es))
    ensures Fated(Whole(Exec(START, es))) && QueueFaithful(Messages(es), Exec(START, es).group.pushed)
  {
    var h := Messages(es);
    ReapingIsIndependent(es);
    CompletesExactlyOnce(h);
    if es != [] {
      var past, e := es[..|es| - 1], es[|es| - 1];
      var x := Exec(START, past);
      MessagesGrow(es);
      assert Lawful(Messages(past));
      EveryChildHasOneFate(past);
      if Enabled(x, e) {
        StepOnWhole(x, e);
        match e
        case Arrives(m) => MessageKeepsFates(h, Whole(x), m);
        case Answered(o) => WaitKeepsFates(Whole(x), o);
        case _ => SameFates(Whole(x), Whole(Step(x, e)));
      }
    }
  }

  /** A wait that answers with a number has waited on the record of a tracked child with that number, and this
      wait was the one that reported it. */
  lemma ReportsItsChild(g: Group, o: Outcome, q: Pid)
    requires Fated(g) && Wait(g, o).1 == Child(q)
    ensures exists p :: p in g.pushed && p.pid == q && Waiting(Answers(g.waits, p.serial))
                        && Reported(Answers(Wait(g, o).0.waits, p.serial))
  {
    var r := g.complete[0];
    var p := r.(attempts := 0);
    var os := Answers(g.waits, p.serial);
    assert IsQueued(r, g);
    WaitAnswers(g, o, p.serial);
    assert (os + [o])[..|os|] == os;
    assert p in g.pushed && p.pid == q;
  }

  // ---- the running object --------------------------------------------------------------------

  /** What reaping hands over, one by one. */
  lemma Listed(g: Group, oracle: nat -> Outcome)
    ensures var pids := Reaped(g, oracle, 0);
            && |pids| <= |g.complete| && (forall k :: 0 <= k < |pids| ==> pids[k] == g.complete[k].pid)
            && (forall k :: 0 <= k < |pids| ==> oracle(k) == Signalled)
            && (|pids| < |g.complete| ==> oracle(|pids|) != Signalled)
  {
    var n := Ready(g.complete, oracle, 0);
    var front := g.complete[..n];
    ReapedInOrder(g, oracle, 0);
    ReadyMeans(g.complete, oracle, 0);
    if n > 0 { NumbersAt(front, 0); }
    forall k | 0 <= k < n ensures Numbers(front)[k] == g.complete[k].pid {
      NumbersAt(front, k);
    }
  }

  /** The process group with the tables of its job-event task. */
  class JobGroup {
    var processes: map<Pid, Process>
    var childids: set<Pid>
    var complete: seq<Process>
    var unmanaged: nat
    var signals: nat
    ghost var owed: nat
    ghost var pushed: seq<Process>
    ghost var waits: seq<(nat, Outcome)>

    ghost function State(): Group
      reads this
    {
      Group(processes, childids, complete, unmanaged, owed, signals, pushed, waits)
    }

    constructor ()
      ensures State() == EMPTY
    {
      processes, childids, complete, unmanaged, signals := map[], {}, [], 0, 0;
      owed, pushed, waits := 0, [], [];
    }

    method Push(p: Process)
      modifies this
      ensures State() == Complete(old(State()), p)
    {
      complete := complete + [p];
      pushed := pushed + [p];
      owed := owed + 1;
    }

    /** The body of the job-event loop for one packet. */
    method Handle(m: Message)
      modifies this
      ensures State() == OnMessage(old(State()), m)
    {
      match m
      case NewProcess(pid) =>
        childids := childids + {pid};
      case ExitProcess(pid) =>
        if pid in processes {
          Push(processes[pid]);
          processes := processes - {pid};
        } else {
          unmanaged := unmanaged + 1;
          owed := owed + 1;
        }
        childids := childids - {pid};
      case Track(p) =>
        if p.pid in childids {
          if p.pid !in processes {
            processes := processes[p.pid := p];
          }
        } else {
          Push(p);
        }
    }

    /** `sigchld`: one byte more in the signal pipe. */
    method SigChld()
      requires owed > 0
      modifies this
      ensures State() == Raise(old(State()))
    {
      signals := signals + 1;
      owed := owed - 1;
    }

    /** `wait(nohang)`, given what the handle answers. */
    method WaitNoHang(o: Outcome) returns (r: WaitResult)
      modifies this
      ensures (State(), r) == Wait(old(State()), o)
      ensures r.Child? <==> old(complete) != [] && o == Signalled
      ensures r.Child? ==> r.pid == old(complete)[0].pid
    {
      if complete == [] {
        return MinusOne;
      }
      var p := complete[0];
      complete := complete[1..];
      waits := waits + [(p.serial, o)];
      if o == Signalled {
        return Child(p.pid);
      }
      var attempts := p.attempts;
      if o == Again {
        attempts := attempts + 1;
        if attempts < MAX_ATTEMPTS {
          complete := complete + [p.(attempts := attempts)];
          signals := signals + 1;
        }
      }
      return MinusOne;
    }

    /** One SIGCHLD in the main loop: `reapchildren` until there is nothing to reap. */
    method ReapChildren(oracle: nat -> Outcome) returns (pids: seq<Pid>)
      requires signals > 0
      modifies this
      ensures State() == Reap(old(State()).(signals := old(signals) - 1), oracle, 0)
      ensures |pids| <= |old(complete)| && (forall k :: 0 <= k < |pids| ==> pids[k] == old(complete)[k].pid)
      ensures forall k :: 0 <= k < |pids| ==> oracle(k) == Signalled
      ensures |pids| < |old(complete)| ==> oracle(|pids|) != Signalled
    {
      signals := signals - 1;
      pids := [];
      ghost var start := State();
      var i: nat := 0;
      while true
        invariant Reap(State(), oracle, i) == Reap(start, oracle, 0)
        invariant pids + Reaped(State(), oracle, i) == Reaped(start, oracle, 0)
        decreases |complete|
      {
        var r := WaitNoHang(oracle(i));
        if r == MinusOne {
          break;
        }
        pids := pids + [r.pid];
        i := i + 1;
      }
      Listed(start, oracle);
    }
  }
}
