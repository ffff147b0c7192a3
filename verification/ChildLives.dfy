/** The process group and the main loop together: which children a service still has on its list, over
    every run of forking, notifying and reaping. */
module ChildLives {
  import opened BackIndex
  import opened Basics
  import opened ChildReaper
  import opened ProcessGroup
  import I = Inetd
  import R = ProcessRecords

  /** A child that service `s` forked, with the record that the process group gets to track it. */
  datatype Fork = Fork(s: R.Sep, process: Process)

  /** Beside the process group: the numbers on the child lists of the services, and all forks so far. */
  datatype World = World(system: System, kids: map<R.Pid, R.Sep>, forks: seq<Fork>)

  const BEGINNING := World(START, map[], [])

  /** The main loop forks a child, or one of the two threads takes a step. */
  datatype Act = Forks(fork: Fork) | Inner(e: Event)

  ghost predicate IsForked(w: World, p: Process) {
    exists f :: f in w.forks && f.process == p
  }

  /** The main loop forks outside of reaping.  A number that is still on a list ends the program, so it is no
      act.  Only forked children are tracked. */
  ghost predicate Can(w: World, a: Act) {
    match a
    case Forks(f) =>
      && w.system.stage.Idle? && f.process.attempts == 0 && f.process.pid !in w.kids
      && forall g :: g in w.forks ==> g.process.serial != f.process.serial
    case Inner(e) => Enabled(w.system, e) && (e.Arrives? ==> e.m.Track? ==> IsForked(w, e.m.process))
  }

  /** What the main loop hears when the step `e` ends a wait. */
  function Heard(x: System, e: Event): WaitResult {
    if e.Answered? && x.stage.InHand? then Answer(x.group, x.stage.p, e.o).1 else MinusOne
  }

  ghost function Next(w: World, a: Act): World
    requires Can(w, a)
  {
    match a
    case Forks(f) => w.(kids := w.kids[f.process.pid := f.s], forks := w.forks + [f])
    case Inner(e) =>
      var heard := Heard(w.system, e);
      w.(system := Step(w.system, e), kids := if heard.Child? then w.kids - {heard.pid} else w.kids)
  }

  /** The world after `acts`; an act that cannot happen does not. */
  ghost function After(acts: seq<Act>): World {
    if acts == [] then BEGINNING
    else
      var w, a := After(acts[..|acts| - 1]), acts[|acts| - 1];
      if Can(w, a) then Next(w, a) else w
  }

  ghost predicate IsRun(acts: seq<Act>) {
    acts == [] || (IsRun(acts[..|acts| - 1]) && Can(After(acts[..|acts| - 1]), acts[|acts| - 1]))
  }

  /** The steps of the two threads among the acts. */
  function Inners(acts: seq<Act>): seq<Event> {
    if acts == [] then []
    else
      Inners(acts[..|acts| - 1]) + if acts[|acts| - 1].Inner? then [acts[|acts| - 1].e] else []
  }

  ghost function History(acts: seq<Act>): seq<Message> {
    Messages(Inners(acts))
  }

  lemma InnersGrow(acts: seq<Act>)
    requires acts != []
    ensures var pre, a := Inners(acts[..|acts| - 1]), acts[|acts| - 1];
            Inners(acts) == if a.Inner? then pre + [a.e] else pre
  {
  }

  lemma {:induction false} SystemFollows(acts: seq<Act>)
    requires IsRun(acts)
    ensures After(acts).system == Exec(START, Inners(acts))
  {
    if acts != [] {
      var pre, a := acts[..|acts| - 1], acts[|acts| - 1];
      SystemFollows(pre);
      InnersGrow(acts);
      if a.Inner? {
        assert Inners(acts)[..|Inners(acts)| - 1] == Inners(pre);
      }
    }
  }

  lemma HistoryGrows(acts: seq<Act>)
    requires acts != []
    ensures var pre, a := History(acts[..|acts| - 1]), acts[|acts| - 1];
            History(acts) == if a.Inner? && a.e.Arrives? then pre + [a.e.m] else pre
  {
    InnersGrow(acts);
    if acts[|acts| - 1].Inner? {
      assert Inners(acts)[..|Inners(acts)| - 1] == Inners(acts[..|acts| - 1]);
      MessagesGrow(Inners(acts));
    }
  }

  // ---- the lists hold what was forked and not reported ---------------------------------------------

  ghost function AnswersTo(w: World, f: Fork): seq<Outcome> {
    Answers(w.system.group.waits, f.process.serial)
  }

  /** Not reported so far. */
  ghost predicate Open(w: World, f: Fork) {
    !Reported(AnswersTo(w, f))
  }

  ghost predicate OnList(w: World, f: Fork) {
    f.process.pid in w.kids && w.kids[f.process.pid] == f.s
  }

  /** The child lists hold the children that were forked and have not been reported, once each. */
  ghost predicate Exact(w: World) {
    && (forall i, j :: 0 <= i < j < |w.forks| ==> w.forks[i].process.serial != w.forks[j].process.serial)
    && (forall f :: f in w.forks && Open(w, f) ==> OnList(w, f))
    && (forall pid :: pid in w.kids ==> exists f :: f in w.forks && Open(w, f) && OnList(w, f) && f.process.pid == pid)
    && (forall f, g :: f in w.forks && g in w.forks && Open(w, f) && Open(w, g) && f.process.pid == g.process.pid ==> f == g)
  }

  /** What has completed was forked. */
  ghost predicate Sourced(w: World) {
    forall p :: p in w.system.group.pushed ==> IsForked(w, p)
  }

  lemma SameSerial(w: World, f: Fork, g: Fork)
    requires Exact(w) && f in w.forks && g in w.forks && f.process.serial == g.process.serial
    ensures f == g
  {
  }

  /** A new child has not been waited on. */
  lemma NewIsUnanswered(w: World, f: Fork)
    requires Fated(Whole(w.system)) && Sourced(w) && Can(w, Forks(f))
    ensures AnswersTo(w, f) == []
  {
    forall p | p in w.system.group.pushed ensures p.serial != f.process.serial {
      assert IsForked(w, p);
    }
    assert f.process.serial !in Serials(Whole(w.system).pushed);
  }

  lemma ForkKeepsExact(w: World, f: Fork)
    requires Exact(w) && Fated(Whole(w.system)) && Sourced(w) && Can(w, Forks(f))
    ensures Exact(Next(w, Forks(f)))
  {
    hide Fated, Whole;
    var w' := Next(w, Forks(f));
    NewIsUnanswered(w, f);
    assert Open(w', f);
    forall g | g in w.forks ensures Open(w', g) <==> Open(w, g) {
    }
    forall g | g in w.forks && Open(w, g) ensures g.process.pid != f.process.pid {
      assert OnList(w, g);
    }
    assert forall g :: g in w'.forks <==> g in w.forks || g == f;
    forall pid | pid in w'.kids
      ensures exists g :: g in w'.forks && Open(w', g) && OnList(w', g) && g.process.pid == pid
    {
      if pid != f.process.pid {
        var g :| g in w.forks && Open(w, g) && OnList(w, g) && g.process.pid == pid;
        assert g in w'.forks && Open(w', g) && OnList(w', g);
      }
    }
  }

  /** The fork behind the record in hand. */
  lemma InHandIsOpen(w: World) returns (f: Fork)
    requires w.system.stage.InHand? && Fated(Whole(w.system)) && Sourced(w)
    ensures f in w.forks && f.process == w.system.stage.p.(attempts := 0)
    ensures Waiting(AnswersTo(w, f)) && Open(w, f)
  {
    var g, q := Whole(w.system), w.system.stage.p;
    assert g.complete[0] == q && IsQueued(q, g);
    assert IsForked(w, q.(attempts := 0));
    f :| f in w.forks && f.process == q.(attempts := 0);
  }

  /** An answer for the child `f`: it is reported exactly if its handle was signalled. */
  lemma AnswerDecides(w: World, o: Outcome, f: Fork, g: Fork)
    requires w.system.stage.InHand? && f.process.serial == w.system.stage.p.serial && Waiting(AnswersTo(w, f))
    requires Can(w, Inner(Answered(o)))
    ensures var w' := Next(w, Inner(Answered(o)));
            Open(w', g) <==> if g.process.serial == f.process.serial then o != Signalled else Open(w, g)
  {
    var w', os := Next(w, Inner(Answered(o))), AnswersTo(w, f);
    AnswersGrow(w.system.group.waits, f.process.serial, o, g.process.serial);
    assert w'.system.group.waits == w.system.group.waits + [(f.process.serial, o)];
    if g.process.serial == f.process.serial {
      assert AnswersTo(w', g) == os + [o] && (os + [o])[..|os|] == os;
    } else {
      assert AnswersTo(w, g) + [] == AnswersTo(w, g) == AnswersTo(w', g);
    }
  }

  lemma AnswerKeepsExact(w: World, o: Outcome)
    requires Exact(w) && Fated(Whole(w.system)) && Sourced(w) && Can(w, Inner(Answered(o)))
    ensures Exact(Next(w, Inner(Answered(o))))
  {
    var w' := Next(w, Inner(Answered(o)));
    var f := InHandIsOpen(w);
    forall g | g in w.forks ensures Open(w', g) <==> Open(w, g) && !(g == f && o == Signalled) {
      AnswerDecides(w, o, f, g);
      if g.process.serial == f.process.serial { SameSerial(w, f, g); }
    }
    forall g | g in w.forks && Open(w', g) ensures OnList(w', g) {
      assert OnList(w, g) && (g == f || g.process.pid != f.process.pid);
    }
    forall pid | pid in w'.kids
      ensures exists g :: g in w'.forks && Open(w', g) && OnList(w', g) && g.process.pid == pid
    {
      var g :| g in w.forks && Open(w, g) && OnList(w, g) && g.process.pid == pid;
      assert Open(w', g);
    }
  }

  /** What leaves answers and lists alone. */
  lemma QuietKeepsExact(w: World, w': World)
    requires Exact(w) && w'.forks == w.forks && w'.kids == w.kids && w'.system.group.waits == w.system.group.waits
    ensures Exact(w')
  {
    assert forall f :: Open(w', f) <==> Open(w, f);
    assert forall f :: OnList(w', f) <==> OnList(w, f);
  }

  lemma StepKeepsExact(w: World, a: Act)
    requires Exact(w) && Fated(Whole(w.system)) && Sourced(w) && Can(w, a)
    ensures Exact(Next(w, a))
  {
    match a
    case Forks(f) => ForkKeepsExact(w, f);
    case Inner(e) =>
      if e.Answered? {
        AnswerKeepsExact(w, e.o);
      } else {
        QuietKeepsExact(w, Next(w, a));
      }
  }

  /** Every tracking message is about a forked child. */
  ghost predicate TracksForked(w: World, h: seq<Message>) {
    forall i :: 0 <= i < |h| && h[i].Track? ==> IsForked(w, h[i].process)
  }

  lemma {:induction false} TracksAreForked(acts: seq<Act>)
    requires IsRun(acts)
    ensures TracksForked(After(acts), History(acts))
  {
    if acts != [] {
      var pre, a := acts[..|acts| - 1], acts[|acts| - 1];
      TracksAreForked(pre);
      HistoryGrows(acts);
      StaysForked(After(pre), a, History(pre), History(acts));
    }
  }

  lemma StaysForked(w: World, a: Act, h: seq<Message>, h': seq<Message>)
    requires Can(w, a) && TracksForked(w, h) && h' == if a.Inner? && a.e.Arrives? then h + [a.e.m] else h
    ensures TracksForked(Next(w, a), h')
  {
    forall i | 0 <= i < |h'| && h'[i].Track? ensures IsForked(Next(w, a), h'[i].process) {
      assert i < |h| ==> h[i] == h'[i];
      assert IsForked(w, h'[i].process);
      var f :| f in w.forks && f.process == h'[i].process;
      assert f in Next(w, a).forks;
    }
  }

  lemma FatesAreSourced(acts: seq<Act>)
    requires IsRun(acts) && Lawful(History(acts))
    ensures var w := After(acts);
            Fated(Whole(w.system)) && QueueFaithful(History(acts), w.system.group.pushed) && Sourced(w)
  {
    var w, h := After(acts), History(acts);
    SystemFollows(acts);
    EveryChildHasOneFate(Inners(acts));
    TracksAreForked(acts);
    forall p | p in w.system.group.pushed ensures IsForked(w, p) {
      var i: nat :| i < |h| && h[i] == Track(p) && ExitSeen(h, i);
    }
  }

  lemma LawfulBefore(acts: seq<Act>)
    requires acts != [] && Lawful(History(acts))
    ensures Lawful(History(acts[..|acts| - 1]))
  {
    HistoryGrows(acts);
    var h := History(acts);
    if h != [] {
      assert h[..|h| - 1] == History(acts[..|acts| - 1]) || h == History(acts[..|acts| - 1]);
    }
  }

  /** Over every run of forks, messages, signals and steps of the reaper, a child is on the list of its service
      exactly while it has not been reported. */
  lemma {:induction false} ListsAreExact(acts: seq<Act>)
    requires IsRun(acts) && Lawful(History(acts))
    ensures Exact(After(acts))
  {
    if acts != [] {
      var pre := acts[..|acts| - 1];
      LawfulBefore(acts);
      ListsAreExact(pre);
      FatesAreSourced(pre);
      StepKeepsExact(After(pre), acts[|acts| - 1]);
    }
  }

  // ---- when everything has drained ---------------------------------------------------------------

  /** Nothing is left to happen: no process runs, all forks were tracked, and nothing waits to be reaped. */
  ghost predicate Drained(w: World, h: seq<Message>) {
    && w.system.stage.Idle? && w.system.group.complete == [] && (forall pid :: !Alive(h, pid))
    && forall f :: f in w.forks ==> Track(f.process) in h
  }

  ghost predicate IsLost(w: World, f: Fork) {
    Lost(AnswersTo(w, f))
  }

  /** The children of `s` that were dropped without a report. */
  ghost function LostOf(w: World, s: R.Sep): set<Fork> {
    set f | f in w.forks && f.s == s && IsLost(w, f)
  }

  /** The numbers on the list of `s`. */
  ghost function KidsOf(kids: map<R.Pid, R.Sep>, s: R.Sep): set<R.Pid> {
    set pid | pid in kids && kids[pid] == s
  }

  /** Each child has then been reported, or is lost. */
  lemma ReportedOrLost(acts: seq<Act>, f: Fork)
    requires IsRun(acts) && Lawful(History(acts)) && Drained(After(acts), History(acts)) && f in After(acts).forks
    ensures Open(After(acts), f) <==> IsLost(After(acts), f)
  {
    hide Fated, Alive, TableFaithful;
    var w, h := After(acts), History(acts);
    FatesAreSourced(acts);
    TablesDrain(h);
    CompletesExactlyOnce(h);
    var i: nat :| i < |h| && h[i] == Track(f.process);
    assert !Pending(h, i);
    assert HasFate(f.process, Whole(w.system));
  }

  lemma {:induction false} CountNumbers(forks: set<Fork>)
    requires forall f, g :: f in forks && g in forks && f.process.pid == g.process.pid ==> f == g
    ensures |set f | f in forks :: f.process.pid| == |forks|
    decreases |forks|
  {
    if forks != {} {
      var f :| f in forks;
      var rest := forks - {f};
      CountNumbers(rest);
      assert (set g | g in forks :: g.process.pid) == (set g | g in rest :: g.process.pid) + {f.process.pid};
    }
  }

  /** When everything has drained, what is left on the list of a service are its lost children. */
  lemma OnlyLostRemain(acts: seq<Act>, s: R.Sep)
    requires IsRun(acts) && Lawful(History(acts)) && Drained(After(acts), History(acts))
    ensures var w := After(acts);
            && KidsOf(w.kids, s) == (set f | f in LostOf(w, s) :: f.process.pid)
            && |KidsOf(w.kids, s)| == |LostOf(w, s)|
  {
    var w := After(acts);
    ListsAreExact(acts);
    forall f | f in w.forks ensures Open(w, f) <==> IsLost(w, f) {
      ReportedOrLost(acts, f);
    }
    forall pid | pid in KidsOf(w.kids, s) ensures pid in set f | f in LostOf(w, s) :: f.process.pid {
      var f :| f in w.forks && Open(w, f) && OnList(w, f) && f.process.pid == pid;
      assert f in LostOf(w, s);
    }
    CountNumbers(LostOf(w, s));
  }

  // ---- the records of the server -----------------------------------------------------------------

  /** The records are those of the children on the lists, each with the service that has it. */
  ghost predicate Shows(x: R.Records, kids: map<R.Pid, R.Sep>) {
    && (forall r :: r in x.number ==> x.number[r] in kids && r in x.parent && x.parent[r] == On(kids[x.number[r]]))
    && (forall pid :: pid in kids ==> R.InUse(x, pid))
  }

  lemma NothingShown(seps: set<R.Sep>)
    ensures Shows(R.NoRecords(seps), map[])
  {
  }

  lemma ForkShown(x: R.Records, y: R.Records, r: R.Rec, pid: Pid, s: R.Sep, kids: map<R.Pid, R.Sep>)
    requires R.Gained(x, y, r, pid, s) && Shows(x, kids) && pid !in kids
    ensures Shows(y, kids[pid := s])
  {
    assert r in y.number && y.number[r] == pid;
    forall p | p in kids ensures R.InUse(y, p) {
      assert R.InUse(x, p);
      var q :| q in x.number && x.number[q] == p;
      assert q in y.number && y.number[q] == p;
    }
  }

  lemma ReapShown(x: R.Books, r: R.Rec, kids: map<R.Pid, R.Sep>)
    requires R.Settled(x) && Shows(x, kids) && r in x.number && x.number[r] in kids
    ensures Shows(R.Reaped(x, r), kids - {x.number[r]})
  {
    hide R.Freed, R.ConnFreed, Agree;
    var y := R.Reaped(x, r);
    R.ReapedNumbers(x, r);
    forall q | q in y.number ensures y.number[q] in kids - {x.number[r]} && q in y.parent && y.parent[q] == On(kids[y.number[q]]) {
      R.Known(x, q);
    }
    forall p | p in kids && p != x.number[r] ensures R.InUse(y, p) {
      assert R.InUse(x, p);
      var q :| q in x.number && x.number[q] == p;
      assert q in y.number && y.number[q] == p;
    }
  }

  lemma QuietShown(x: R.Records, y: R.Records, kids: map<R.Pid, R.Sep>)
    requires Shows(x, kids) && y.number == x.number && y.parent == x.parent
    ensures Shows(y, kids)
  {
    forall p | p in kids ensures R.InUse(y, p) {
      assert R.InUse(x, p);
    }
  }

  /** The list of a service is as long as it has numbers. */
  lemma ListLength(x: R.Books, kids: map<R.Pid, R.Sep>, s: R.Sep)
    requires R.Settled(x) && Shows(x, kids) && s in x.children
    ensures |x.children[s]| == |KidsOf(kids, s)|
  {
    hide Agree;
    var l := x.children[s];
    forall i | 0 <= i < |l| ensures l[i] in x.number && x.parent[l[i]] == On(s) {
      PointsBack(x.parent, x.children, l[i], s);
    }
    var n := seq(|l|, i requires 0 <= i < |l| => x.number[l[i]]);
    forall i, j | 0 <= i < j < |n| ensures n[i] != n[j] {
      R.Known(x, l[i]);
      assert l[i] != l[j];
    }
    DistinctCount(n);
    forall pid | pid in KidsOf(kids, s) ensures pid in n {
      assert R.InUse(x, pid);
      var r :| r in x.number && x.number[r] == pid;
      OnItsList(x.parent, x.children, r);
      var i :| 0 <= i < |l| && l[i] == r;
      assert n[i] == pid;
    }
    forall i | 0 <= i < |n| ensures n[i] in KidsOf(kids, s) {
      var r := l[i];
      assert r in x.number && x.parent[r] == On(kids[x.number[r]]) && x.parent[r] == On(s);
    }
    assert (set p | p in n) == KidsOf(kids, s);
  }

  /** Accepting is a fork, or leaves the lists alone. */
  method Accept(server: I.Server, s: R.Sep, a: I.Arrival, ghost kids: map<R.Pid, R.Sep>) returns (v: I.Verdict)
    requires server.Valid() && s in server.service && server.service[s].fd >= 0 && Shows(server.records, kids)
    requires a.fork.Some? ==> a.fork.value > 0 && a.fork.value !in kids
    modifies server
    ensures !v.Fatal? ==> server.Valid()
    ensures v.Forked? ==> a.fork.Some? && Shows(server.records, kids[a.fork.value := s])
    ensures !v.Forked? && !v.Fatal? ==> Shows(server.records, kids)
  {
    ghost var x := server.records;
    v := server.DoAccept(s, a);
    if v.Forked? {
      ForkShown(x, server.records, v.r, a.fork.value, s, kids);
    } else if !v.Fatal? {
      QuietShown(x, server.records, kids);
    }
  }

  /** The child that is reported leaves its list. */
  method Reap(server: I.Server, pid: Pid, ghost kids: map<R.Pid, R.Sep>)
    requires server.Valid() && Shows(server.records, kids)
    modifies server
    ensures server.Valid() && Shows(server.records, kids - {pid})
  {
    hide R.Consistent, R.Settled, I.Switched, R.Reaped, R.Freed;
    ghost var x := server.records;
    var found, r := server.ReapChild(pid);
    if found {
      ReapShown(x, r, kids);
    } else {
      assert pid !in kids;
      assert kids - {pid} == kids;
    }
  }

  /** So when everything has drained, a bound service is off exactly when its lost children alone reach its
      limit; it has no way to come on again by reaping. */
  lemma OffWhenLostReachLimit(acts: seq<Act>, service: map<R.Sep, I.Service>, allsock: set<int>, x: R.Books, s: R.Sep)
    requires IsRun(acts) && Lawful(History(acts)) && Drained(After(acts), History(acts))
    requires R.Settled(x) && Shows(x, After(acts).kids) && I.Switched(service, allsock, x.children)
    requires s in service && service[s].fd >= 0
    ensures service[s].running <==> service[s].maxchild <= 0 || |LostOf(After(acts), s)| < service[s].maxchild
  {
    OnlyLostRemain(acts, s);
    ListLength(x, After(acts).kids, s);
    I.OneSwitch(service, allsock, x.children, s);
  }
}
