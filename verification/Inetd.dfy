/** The main loop of the super-server: accepting, forking, reaping, reconfiguring and retrying, with
    the switching of services at their child limit. */
module Inetd {
  import opened BackIndex
  import opened Basics
  import opened Octets
  import opened ProcessRecords

  const CNT_INTVL := 60

  /** The settings and the switch of one service; its lists are kept by the server below. */
  datatype Service = Service(
    mux: bool, stream: bool, forks: bool, maxperip: int,
    maxchild: int, accept: bool,
    enabled: bool, running: bool, fd: int, count: nat, since: int)

  /** The limit test of the service table. */
  predicate ExceedsLimit(maxchild: int, count: nat) {
    maxchild > 0 && count >= maxchild
  }

  /** A service runs exactly while it is in the select set; when bound, exactly while it may take
      another child; an unbound one has no children. */
  ghost predicate SwitchOk(v: Service, allsock: set<int>, count: nat) {
    && v.enabled
    && (v.running <==> v.fd >= 0 && v.fd in allsock)
    && (v.fd >= 0 ==> (v.running <==> v.maxchild <= 0 || count < v.maxchild))
    && (v.fd < 0 ==> count == 0) && (v.mux ==> v.fd < 0)
  }

  ghost predicate DistinctFds(service: map<Sep, Service>) {
    forall s, t ::
      s in service && t in service && s != t && service[s].fd >= 0 ==> service[s].fd != service[t].fd
  }

  ghost predicate Switched(service: map<Sep, Service>, allsock: set<int>, children: map<Sep, seq<Rec>>) {
    && service.Keys == children.Keys && DistinctFds(service)
    && forall s :: s in service ==> SwitchOk(service[s], allsock, |children[s]|)
  }

  /** Nothing but the switch and the start counter of `s` differs. */
  ghost predicate SameSettings(a: map<Sep, Service>, b: map<Sep, Service>, s: Sep) {
    && s in a && s in b && b == a[s := b[s]]
    && b[s] == a[s].(running := b[s].running, count := b[s].count, since := b[s].since)
  }

  lemma SettingsKept(a: map<Sep, Service>, b: map<Sep, Service>, c: map<Sep, Service>, s: Sep)
    requires SameSettings(a, b, s) && (SameButRunning(b, c, s) || b == c)
    ensures SameSettings(a, c, s)
  {
    if b != c {
      SetTwice(a, s, b[s], c[s]);
    }
  }

  /** What `setup` meets: no socket, no address, or a bound descriptor. */
  datatype Bind = SocketFails | BindFails | Bound(fd: int)

  /** The operating system hands out descriptors that are not open. */
  ghost predicate NewFd(b: Bind, service: map<Sep, Service>, allsock: set<int>) {
    b.Bound? ==> b.fd >= 0 && b.fd !in allsock && forall t :: t in service ==> service[t].fd != b.fd
  }

  /** The same for all attempts to bind, given the descriptors that are open. */
  ghost predicate HandsOutNew(system: (Sep, set<int>) -> Bind) {
    forall s, open :: system(s, open).Bound? ==> system(s, open).fd >= 0 && system(s, open).fd !in open
  }

  lemma NewIsNew(system: (Sep, set<int>) -> Bind, s: Sep, service: map<Sep, Service>, allsock: set<int>)
    requires HandsOutNew(system)
    ensures NewFd(system(s, allsock + set t | t in service :: service[t].fd), service, allsock)
  {
    var open := allsock + set t | t in service :: service[t].fd;
    forall t | t in service ensures service[t].fd in open {
    }
  }

  /** The descriptor that `setup` gets for `s`, which may be the one just closed. */
  ghost predicate NewFdAfterClose(b: Bind, service: map<Sep, Service>, allsock: set<int>, s: Sep, closing: bool)
    requires s in service
  {
    if closing && service[s].fd >= 0
    then NewFd(b, service[s := service[s].(fd := -1)], allsock - {service[s].fd})
    else NewFd(b, service, allsock)
  }

  lemma SameFds(b: Bind, m: map<Sep, Service>, m': map<Sep, Service>, a: set<int>, a': set<int>)
    requires NewFd(b, m, a) && a' <= a && m'.Keys == m.Keys && forall t :: t in m ==> m'[t].fd == m[t].fd
    ensures NewFd(b, m', a')
  {
  }

  lemma NewAfterClose(system: (Sep, set<int>) -> Bind, service: map<Sep, Service>, allsock: set<int>, s: Sep, closing: bool)
    requires HandsOutNew(system) && s in service
    ensures var open := if closing && service[s].fd >= 0
                        then allsock - {service[s].fd} + set t | t in service && t != s :: service[t].fd
                        else allsock + set t | t in service :: service[t].fd;
            NewFdAfterClose(system(s, open), service, allsock, s, closing)
  {
    if closing && service[s].fd >= 0 {
      var open := allsock - {service[s].fd} + set t | t in service && t != s :: service[t].fd;
      forall t | t in service && t != s ensures service[t].fd in open {
      }
    } else {
      NewIsNew(system, s, service, allsock);
    }
  }

  /** The descriptor of a service after it was reconfigured. */
  ghost function Rebound(v: Service, reset: bool, b: Bind): int {
    if v.mux || (v.fd >= 0 && !reset) then v.fd else if b.Bound? then b.fd else -1
  }

  /** A service with new settings, switch or descriptor: what it must satisfy on its own. */
  lemma SwitchedAfterChange(service: map<Sep, Service>, allsock: set<int>, children: map<Sep, seq<Rec>>, s: Sep, v: Service)
    requires Switched(service, allsock, children) && s in service && v.enabled && v.mux == service[s].mux
    requires v.fd == service[s].fd || (v.fd < 0 && !v.running && children[s] == [])
             || (service[s].fd < 0 && !v.mux && NewFd(Bound(v.fd), service, allsock))
    requires v.fd >= 0 ==> (v.running <==> !ExceedsLimit(v.maxchild, |children[s]|))
    requires v.fd < 0 ==> !v.running
    ensures Switched(service[s := v],
                     if v.running then allsock + {v.fd} else if service[s].running then allsock - {service[s].fd} else allsock,
                     children)
  {
  }

  lemma OneSwitch(service: map<Sep, Service>, allsock: set<int>, children: map<Sep, seq<Rec>>, s: Sep)
    requires Switched(service, allsock, children) && s in service
    ensures SwitchOk(service[s], allsock, |children[s]|)
  {
  }

  /** No service with a limit has more children than that. */
  ghost predicate WithinLimits(service: map<Sep, Service>, children: map<Sep, seq<Rec>>) {
    forall s :: s in service && s in children && service[s].maxchild > 0 ==>
      |children[s]| <= service[s].maxchild
  }

  /** Where `do_accept` stands before it forks: nothing held, or a record in the vector of `conn`. */
  ghost predicate Held(x0: Records, s: Sep, i: ConnInfo, conn: Option<Conn>, r: Rec, x1: Records, x: Records) {
    match conn
    case None => x == x0 == x1
    case Some(c) => Found(x0, s, i, c, x1) && c in x1.vector && r == x1.heap && x == TrackedRecord(x1, c)
  }

  /** A peer whose address is known: its name as numbers, the bucket of its address, and what would be stored as
      its address. */
  datatype Peer = Peer(name: string, bucket: nat, stored: Stored)

  /** What `getnameinfo` makes of an address that is stored: its name as numbers, if it has one. */
  type Namer = Stored -> Option<string>

  /** A connection attempt: whether the access checks let it through, whether the access times admit it, the
      peer if its address is known, the time, and what forking the server program gives. */
  datatype Arrival = Arrival(through: bool, inTime: bool, peer: Option<Peer>, now: int, fork: Option<Pid>)

  /** The start counter after one more start, and whether the starts come too fast: at least `toomany` of
      them within the interval. */
  function Started(v: Service, toomany: int, now: int): (Service, bool) {
    if v.count == 0 then (v.(count := 1, since := now), false)
    else if toomany <= 0 || v.count + 1 < toomany then (v.(count := v.count + 1), false)
    else if now - v.since > CNT_INTVL then (v.(count := 1, since := now), false)
    else (v.(count := v.count + 1), true)
  }

  /** The first connection of `s` that is taken for the peer's has as many records as it allows. */
  ghost predicate HostFull(x: Records, names: Namer, s: Sep, p: Peer) {
    s in x.conns && exists k: nat :: IsHost(x, names, x.conns[s], k, p) && AtLimit(x, x.conns[s][k])
  }

  /** The connection is in the bucket of the peer, and its stored address is read back as the peer's name. */
  ghost predicate Matches(x: Records, names: Namer, c: Conn, p: Peer) {
    c in x.info && x.info[c].bucket == p.bucket && names(x.info[c].addr) == Some(p.name)
  }

  /** The first connection of the list that matches stands at `k`. */
  ghost predicate IsHost(x: Records, names: Namer, list: seq<Conn>, k: nat, p: Peer) {
    k < |list| && Matches(x, names, list[k], p) && forall j :: 0 <= j < k ==> !Matches(x, names, list[j], p)
  }

  ghost predicate AtLimit(x: Records, c: Conn) {
    c in x.vector && c in x.info && |x.vector[c]| >= x.info[c].maxchild
  }

  /** The connection that is found, or made because none matches, decides whether its host is at the limit. */
  lemma HostIsJudged(x: Records, names: Namer, s: Sep, i: ConnInfo, p: Peer, c: Conn, y: Records)
    requires Consistent(x) && Found(x, s, i, c, y) && i.maxchild > 0
    requires if c in x.vector then exists k: nat :: IsHost(x, names, x.conns[s], k, p) && x.conns[s][k] == c
             else forall d :: d in x.conns[s] ==> !Matches(x, names, d, p)
    ensures HostFull(x, names, s, p) <==> AtLimit(y, c)
  {
    if c in x.vector {
      var k: nat :| IsHost(x, names, x.conns[s], k, p) && x.conns[s][k] == c;
      if HostFull(x, names, s, p) {
        var m: nat :| IsHost(x, names, x.conns[s], m, p) && AtLimit(x, x.conns[s][m]);
        assert m == k;
      }
    }
  }

  /** The connection kept for a caller is the first that matches, or a new one when none does; it is kept only where the
      program accepts connections itself and keeps count of hosts, and only for known addresses. */
  ghost predicate Sought(x: Records, names: Namer, s: Sep, v: Service, a: Arrival, conn: Option<Conn>) {
    && s in x.conns
    && (conn.Some? <==> v.accept && v.stream && v.maxperip > 0 && a.peer.Some?)
    && (conn.Some? ==>
          if conn.value in x.vector
          then exists k: nat :: IsHost(x, names, x.conns[s], k, a.peer.value) && x.conns[s][k] == conn.value
          else forall d :: d in x.conns[s] ==> !Matches(x, names, d, a.peer.value))
  }

  /** The child is counted: it stands last in the vector of its caller's connection, which is the first that matches, or a
      new one with the caller's address and the limit per host; or in none where hosts are not counted. */
  ghost predicate Counted(x: Records, y: Records, names: Namer, s: Sep, v: Service, a: Arrival, r: Rec) {
    && s in x.conns && r in y.host
    && if v.accept && v.stream && v.maxperip > 0 && a.peer.Some? then
         exists c :: Sought(x, names, s, v, a, Some(c)) && y.host[r] == On(c) &&
           if c in x.vector then
             y.conns == x.conns && y.info == x.info && y.vector == x.vector[c := x.vector[c] + [r]]
           else
             && y.conns == x.conns[s := [c] + x.conns[s]] && y.vector == x.vector[c := [r]]
             && y.info == x.info[c := ConnInfo(a.peer.value.stored, a.peer.value.bucket, v.maxperip)]
       else y.host[r] == Off && y.conns == x.conns && y.info == x.info && y.vector == x.vector
  }

  lemma StandingIsCounted(x0: Records, names: Namer, s: Sep, v: Service, a: Arrival, conn: Option<Conn>, r: Rec,
                          x1: Records, x: Records, y: Records, q: Rec)
    requires Held(x0, s, Wanted(a, v), conn, r, x1, x) && Sought(x0, names, s, v, a, conn) && Standing(x1, y, conn, q)
    ensures Counted(x0, y, names, s, v, a, q)
  {
    if conn.Some? {
      var c := conn.value;
      assert Sought(x0, names, s, v, a, Some(c));
      if c !in x0.vector {
        SetTwice(x0.vector, c, [], [q]);
        assert [] + [q] == [q];
      }
    }
  }

  /** Why a connection is turned away at once: the access times, or a host at its limit on a service that
      accepts connections itself and keeps count of hosts. */
  ghost predicate TurnedAway(x: Records, names: Namer, s: Sep, v: Service, a: Arrival) {
    || !a.inTime
    || (v.accept && v.stream && v.forks && v.maxperip > 0 && a.peer.Some? && HostFull(x, names, s, a.peer.value))
  }

  /** `getnameinfo` has names for internet addresses only. */
  ghost predicate NamesInternetOnly(names: Namer) {
    forall a :: names(a).Some? ==> Family(a) == AF_INET || Family(a) == AF_INET6
  }

  lemma StoredHasNoName(names: Namer, a: Stored)
    requires NamesInternetOnly(names)
    ensures names(a).None?
  {
    var high := a.pointer / 0x1_0000;
    assert Family(a) == a.pointer - high * 0x1_0000 == 4 * (a.pointer / 4 - high * 0x4000);
  }

  /** As the addresses are stored no connection has a name, so that no host is ever at its limit: only the
      access times turn a connection away. */
  lemma HostLimitNeverRefuses(x: Records, names: Namer, s: Sep, v: Service, a: Arrival)
    requires NamesInternetOnly(names)
    ensures TurnedAway(x, names, s, v, a) <==> !a.inTime
  {
    if a.peer.Some? && HostFull(x, names, s, a.peer.value) {
      var k: nat :| IsHost(x, names, x.conns[s], k, a.peer.value) && AtLimit(x, x.conns[s][k]);
      StoredHasNoName(names, x.info[x.conns[s][k]].addr);
    }
  }

  /** What a connection made for the peer keeps. */
  function InfoOf(p: Peer, maxchild: int): ConnInfo {
    ConnInfo(p.stored, p.bucket, maxchild)
  }

  /** The connection that a service looks for. */
  function Wanted(a: Arrival, v: Service): ConnInfo {
    if a.peer.Some? then InfoOf(a.peer.value, v.maxperip) else ConnInfo(Stored(0, []), 0, v.maxperip)
  }

  /** What must become of a service about to fork. */
  ghost predicate Launched(x: Records, v: Service, toomany: int, a: Arrival, verdict: Verdict) {
    if Started(v, toomany, a.now).1 then verdict.Looping?
    else if a.fork.None? then verdict.ForkFailed?
    else if InUse(x, a.fork.value) then verdict.Fatal?
    else verdict.Forked?
  }

  /** What must become of a connection attempt. */
  ghost predicate Decided(x: Records, names: Namer, s: Sep, v: Service, toomany: int, a: Arrival, verdict: Verdict) {
    if TurnedAway(x, names, s, v, a) then verdict.Refused?
    else if !v.forks then verdict.Local?
    else Launched(x, v, toomany, a, verdict)
  }

  /** What became of it. */
  datatype Verdict = Refused | Looping | ForkFailed | Forked(r: Rec) | Fatal | Local

  /** Nothing but the switch of `s` differs. */
  ghost predicate SameButRunning(a: map<Sep, Service>, b: map<Sep, Service>, s: Sep) {
    s in a && s in b && b == a[s := a[s].(running := b[s].running)]
  }

  /** The child list of `s` is forgotten: its records are deleted, but stay in the hash table and in
      the vectors of their connections. */
  function Drain(x: Records, s: Sep): Records
    requires s in x.children
  {
    var dead := set r | r in x.children[s];
    x.(children := x.children[s := []], number := x.number - dead, slot := x.slot - dead,
       parent := x.parent - dead, host := x.host - dead)
  }

  /** Closing a service keeps the indexes exactly when it has no children. */
  lemma DrainConsistentIffChildless(x: Books, s: Sep)
    requires Settled(x) && s in x.children
    ensures Consistent(Drain(x, s)) <==> x.children[s] == []
  {
    if x.children[s] == [] {
      NothingDrained(x, s);
    } else {
      DrainLeavesHashed(x, s);
    }
  }

  lemma NothingDrained(x: Records, s: Sep)
    requires s in x.children && x.children[s] == []
    ensures Drain(x, s) == x
  {
    assert (set r | r in x.children[s]) == {};
    SetToSame(x.children, s, []);
  }

  lemma DrainLeavesHashed(x: Books, s: Sep)
    requires Settled(x) && s in x.children && x.children[s] != []
    ensures !Agree(Drain(x, s).slot, Drain(x, s).table)
  {
    var r := x.children[s][0];
    assert r in x.number by { PointsBack(x.parent, x.children, r, s); }
    assert x.slot[r].On? by { Known(x, r); }
    LostRecord(x.slot, x.table, (set q | q in x.children[s]), r);
  }

  /** Deleting a record that is still on a list breaks the index. */
  lemma LostRecord<P, K>(back: map<P, Link<K>>, lists: map<K, seq<P>>, dead: set<P>, p: P)
    requires Agree(back, lists) && p in back && back[p].On? && p in dead
    ensures !Agree(back - dead, lists)
  {
    OnItsList(back, lists, p);
    assert p !in back - dead;
  }

  /** The body of `connprocs::unlink`: find the record, and fill its place with the last one. */
  method Unlink(v0: seq<Rec>, r: Rec) returns (v: seq<Rec>)
    requires r in v0
    ensures v == SwapRemove(v0, IndexOf(v0, r))
  {
    v := v0;
    var it, end := 0, |v|;
    while v[it] != r
      invariant v == v0 && 0 <= it < end == |v| && r !in v[..it] && r in v[it..]
      decreases end - it
    {
      assert v[it..] == [v[it]] + v[it + 1..];
      it := it + 1;
    }
    IndexOfIsFirst(v0, r, it);
    end := end - 1;
    if it != end {
      v := v[it := v[end]];
    }
    v := v[..end];
  }

  // ---- what happened in a round --------------------------------------------------------------

  /** The server at some moment. */
  datatype Snapshot = Snapshot(records: Records, service: map<Sep, Service>, allsock: set<int>)

  /** The turn of a service whose descriptor was readable: what became of the connection, if it got past the
      access checks. */
  datatype Turn = Turn(s: Sep, before: Snapshot, outcome: Option<Verdict>, after: Snapshot)

  /** A connection that the program accepts itself and the access checks turn away changes nothing; any other gets
      its verdict. */
  ghost predicate TurnOk(t: Turn, names: Namer, toomany: int, a: Arrival) {
    && t.s in t.before.service && t.s in t.after.service
    && (var v := t.before.service[t.s]; t.outcome.None? <==> v.accept && v.stream && !a.through)
    && (t.outcome.None? ==> t.after == t.before)
    && (t.outcome.Some? ==>
          var v, x, y := t.outcome.value, t.before.records, t.after.records;
          && Decided(x, names, t.s, t.before.service[t.s], toomany, a, v)
          && (v.Forked? ==> a.fork.Some? && Gained(x, y, v.r, a.fork.value, t.s)
                            && Counted(x, y, names, t.s, t.before.service[t.s], a, v.r))
          && (!v.Forked? ==> y == x.(heap := y.heap))
          && Served(t.before.service, t.after.service, t.s, toomany, a.now, v))
  }

  /** What the turn leaves of the services: no other is touched, this one has counted the start, if there was one, and
      one that is looping is closed. */
  ghost predicate Served(m: map<Sep, Service>, m': map<Sep, Service>, s: Sep, toomany: int, now: int, v: Verdict) {
    && s in m && s in m' && m' == m[s := m'[s]]
    && var w, counted := m'[s], Started(m[s], toomany, now).0;
       if v.Looping? then w == m[s].(running := false, fd := -1, count := 0, since := counted.since)
       else if v.Refused? || v.Local? then w == m[s].(running := w.running)
       else w == m[s].(running := w.running, count := counted.count, since := counted.since)
  }

  lemma ServedUnless(m: map<Sep, Service>, m1: map<Sep, Service>, m': map<Sep, Service>, s: Sep, toomany: int, now: int, v: Verdict)
    requires SameSettings(m, m1, s) && m[s].fd >= 0
    requires (m1[s].count, m1[s].since) ==
               if v.Refused? || v.Local? then (m[s].count, m[s].since)
               else (Started(m[s], toomany, now).0.count, Started(m[s], toomany, now).0.since)
    requires if v.Looping? then s in m' && m' == m1[s := m1[s].(running := false, count := 0, fd := -1)] else m' == m1
    ensures Served(m, m', s, toomany, now, v)
  {
    if v.Looping? { SetTwice(m, s, m1[s], m'[s]); }
  }

  /** The turns lead from one moment to another. */
  ghost predicate Lead(turns: seq<Turn>, a: Snapshot, b: Snapshot) {
    if turns == [] then a == b
    else Lead(turns[..|turns| - 1], a, turns[|turns| - 1].before) && turns[|turns| - 1].after == b
  }

  function Sources(turns: seq<Turn>): seq<Sep> {
    if turns == [] then [] else Sources(turns[..|turns| - 1]) + [turns[|turns| - 1].s]
  }

  /** The bound services whose descriptors are readable, in order. */
  function ReadableOf(order: seq<Sep>, service: map<Sep, Service>, readable: set<int>): seq<Sep>
    requires forall s :: s in order ==> s in service
  {
    if order == [] then []
    else
      var s := order[|order| - 1];
      ReadableOf(order[..|order| - 1], service, readable)
      + if service[s].fd >= 0 && service[s].fd in readable then [s] else []
  }

  lemma OneMoreTurn(turns: seq<Turn>, t: Turn, a: Snapshot)
    requires Lead(turns, a, t.before)
    ensures Lead(turns + [t], a, t.after) && Sources(turns + [t]) == Sources(turns) + [t.s]
  {
    assert (turns + [t])[..|turns|] == turns;
  }

  lemma OneMoreReadable(order: seq<Sep>, i: nat, service: map<Sep, Service>, readable: set<int>)
    requires i < |order| && forall s :: s in order ==> s in service
    ensures ReadableOf(order[..i + 1], service, readable) == ReadableOf(order[..i], service, readable)
            + if service[order[i]].fd >= 0 && service[order[i]].fd in readable then [order[i]] else []
  {
    assert order[..i + 1][..i] == order[..i];
  }

  ghost predicate TurnsOk(turns: seq<Turn>, names: Namer, toomany: int, arrivals: Sep -> Arrival) {
    forall i :: 0 <= i < |turns| ==> TurnOk(turns[i], names, toomany, arrivals(turns[i].s))
  }

  /** Only switches differ. */
  ghost predicate OnlySwitches(m: map<Sep, Service>, m': map<Sep, Service>) {
    m'.Keys == m.Keys && forall s :: s in m ==> m'[s] == m[s].(running := m'[s].running)
  }

  /** An unbound service was set up as the system answered, once; any other is as it was. */
  ghost predicate TriedToBind(v: Service, w: Service, s: Sep, system: (Sep, set<int>) -> Bind, inUse: set<int>) {
    if v.fd >= 0 || v.mux then w == v
    else exists open :: inUse <= open && IsSetUp(v, w, system(s, open))
  }

  ghost predicate IsSetUp(v: Service, w: Service, b: Bind) {
    if b.Bound? then w == v.(running := true, fd := b.fd) else w == v.(running := false, fd := -1)
  }

  /** The limit and the accept mode of `s` after the changes. */
  function Retuned(changes: seq<Change>, s: Sep, v: Service): (int, bool) {
    if changes == [] then (v.maxchild, v.accept)
    else
      var c := changes[|changes| - 1];
      if c.s == s then (c.maxchild, c.accept) else Retuned(changes[..|changes| - 1], s, v)
  }

  ghost predicate AllRetuned(changes: seq<Change>, m: map<Sep, Service>, m': map<Sep, Service>) {
    m'.Keys == m.Keys && forall s :: s in m ==> (m'[s].maxchild, m'[s].accept) == Retuned(changes, s, m[s])
  }

  lemma OneMoreChange(changes: seq<Change>, i: nat, m: map<Sep, Service>, m': map<Sep, Service>, m'': map<Sep, Service>)
    requires i < |changes| && AllRetuned(changes[..i], m, m') && m''.Keys == m'.Keys && changes[i].s in m''
    requires forall t :: t in m' && t != changes[i].s ==> m''[t] == m'[t]
    requires m''[changes[i].s].maxchild == changes[i].maxchild && m''[changes[i].s].accept == changes[i].accept
    ensures AllRetuned(changes[..i + 1], m, m'')
  {
    assert changes[..i + 1][..i] == changes[..i];
  }

  /** What handling a signal does: every service that is unbound is tried, the children that exited are no longer
      known, or the settings are those of the last change. */
  ghost predicate Handled(signal: Signal, a: Snapshot, b: Snapshot, order: seq<Sep>, system: (Sep, set<int>) -> Bind) {
    b.service.Keys == a.service.Keys &&
    match signal
    case Alrm =>
      && b.records == a.records
      && forall s :: s in a.service ==>
           if s in order then TriedToBind(a.service[s], b.service[s], s, system, a.allsock) else b.service[s] == a.service[s]
    case Chld(exited) =>
      && OnlySwitches(a.service, b.service)
      && forall pid :: InUse(b.records, pid) <==> InUse(a.records, pid) && pid !in exited
    case Hup(changes) =>
      AllRetuned(changes, a.service, b.service) && b.records.number == a.records.number && b.records.children == a.records.children
    case Term => false
  }

  class Server {
    const toomany: int
    const names: Namer
    var records: Books
    var service: map<Sep, Service>
    var allsock: set<int>

    /** What holds after every handled event. */
    ghost predicate Valid()
      reads this
    {
      Settled(records) && Switched(service, allsock, records.children)
    }

    /** The server with its configured services, none of them bound yet. */
    constructor (toomany: int, names: Namer, services: map<Sep, Service>)
      requires forall s :: s in services ==> services[s].enabled && !services[s].running && services[s].fd == -1
      ensures Valid() && service == services && this.toomany == toomany && this.names == names
    {
      NoRecordsConsistent(services.Keys);
      this.toomany, this.names := toomany, names;
      records := NoRecords(services.Keys);
      service := services;
      allsock := {};
    }

    ghost function Now(): Snapshot
      reads this
    {
      Snapshot(records, service, allsock)
    }

    // ---- switching -----------------------------------------------------------------------------

    /** `enable`: nothing if the service runs, else mark it and join the select set. */
    method Enable(s: Sep)
      requires s in service && service[s].enabled
      modifies `service, `allsock
      ensures service == old(service)[s := old(service)[s].(running := true)]
      ensures allsock == if old(service)[s].running then old(allsock) else old(allsock) + {service[s].fd}
    {
      if service[s].running {
        return;
      }
      service := service[s := service[s].(running := true)];
      allsock := allsock + {service[s].fd};
    }

    /** `disable`: leave the select set; when closing, also give up the descriptor. */
    method Disable(s: Sep, closing: bool)
      requires s in service && service[s].enabled
      modifies `service, `allsock
      ensures service == old(service)[s := old(service)[s].(
                running := false, fd := if closing && old(service)[s].fd >= 0 then -1 else old(service)[s].fd)]
      ensures allsock == if old(service)[s].running then old(allsock) - {old(service)[s].fd} else old(allsock)
    {
      if service[s].running {
        service := service[s := service[s].(running := false)];
        allsock := allsock - {service[s].fd};
      }
      if closing && service[s].fd >= 0 {
        service := service[s := service[s].(fd := -1)];
      }
    }

    /** After a child joined: off if that reaches the limit. */
    method SwitchOff(s: Sep, ghost children: map<Sep, seq<Rec>>, l: seq<Rec>)
      requires Switched(service, allsock, children) && s in service && service[s].fd >= 0 && |l| == |children[s]| + 1
      modifies `service, `allsock
      ensures Switched(service, allsock, children[s := l]) && SameButRunning(old(service), service, s)
    {
      if ExceedsLimit(service[s].maxchild, |l|) {
        Disable(s, false);
      } else {
        SetToSame(service, s, service[s]);
      }
    }

    /** After a child left: on if the service may take another. */
    method SwitchOn(s: Sep, ghost children: map<Sep, seq<Rec>>, l: seq<Rec>)
      requires Switched(service, allsock, children) && s in service && |l| == |children[s]| - 1
      modifies `service, `allsock
      ensures Switched(service, allsock, children[s := l]) && SameButRunning(old(service), service, s)
      ensures old(allsock) <= allsock
    {
      if !ExceedsLimit(service[s].maxchild, |l|) {
        Enable(s);
      } else {
        SetToSame(service, s, service[s]);
      }
    }

    // ---- records -------------------------------------------------------------------------------

    /** `search_proc(pid)`: the record with that number, found in its bucket. */
    method SearchProc(pid: Pid) returns (found: bool, r: Rec)
      requires pid != NONE
      ensures found ==> r in records.number && records.number[r] == pid
      ensures !found ==> forall q :: q in records.number ==> records.number[q] != pid
    {
      var bucket := records.table[records.hash(pid)];
      found, r := false, 0;
      forall q | q in bucket ensures q in records.number {
        PointsBack(records.slot, records.table, q, records.hash(pid));
      }
      for i := 0 to |bucket|
        invariant forall k :: 0 <= k < i ==> records.number[bucket[k]] != pid
      {
        r := bucket[i];
        if records.number[r] == pid {
          return true, r;
        }
      }
      forall q | q in records.number ensures records.number[q] != pid {
        Known(records, q);
      }
    }

    /** The record leaves the vector of its connection, if it has one. */
    method LeaveConnection(r: Rec)
      requires r in records.number
      modifies `records
      ensures records == OffHost(old(records), r)
    {
      OffHostConsistent(records, r);
      if records.host[r].On? {
        LeaveHostConsistent(records, r);
        var c := records.host[r].key;
        var v := Unlink(records.vector[c], r);
        records := records.(vector := records.vector[c := v], host := records.host[r := Off]);
      }
    }

    /** `free_proc`: the record leaves its connection, its service and its bucket, and is gone. */
    method FreeProc(r: Rec)
      requires r in records.number && (records.parent[r].On? ==> records.number[r] != NONE)
      modifies `records
      ensures records == Freed(old(records), r)
    {
      ghost var x := records;
      FreedInSteps(x, r);
      LeaveConnection(r);
      if records.number[r] != NONE {
        RemoveChild(r);
        RemoveSelf(r);
      } else {
        OffChildrenConsistent(records, r);
        OffTableConsistent(records, r);
      }
      DeleteRecordConsistent(records, r);
      records := DeleteRecord(records, r);
    }

    /** `se_children.remove`, if the record is on a child list. */
    method RemoveChild(r: Rec)
      requires r in records.number
      modifies `records
      ensures records == OffChildren(old(records), r)
    {
      OffChildrenConsistent(records, r);
      if records.parent[r].On? {
        LeaveChildrenConsistent(records, r);
        records := LeaveChildren(records, r);
      }
    }

    /** `remove_self`: the record leaves its bucket and gives up its number. */
    method RemoveSelf(r: Rec)
      requires r in records.number && records.number[r] != NONE
      modifies `records
      ensures records == OffTable(old(records), r)
    {
      OffTableConsistent(records, r);
      GiveUpNumberConsistent(records, r);
      records := GiveUpNumber(records, r);
    }

    /** `free_conn`: a connection without records is taken off its list and deleted. */
    method FreeConn(c: Conn)
      requires c in records.vector
      modifies `records
      ensures records == ConnFreed(old(records), c)
    {
      if |records.vector[c]| <= 0 {
        DeleteConnConsistent(records, c);
        records := DeleteConn(records, c);
      }
    }

    /** `search_connections`: the first connection in the peer's bucket whose stored address is read back as the
        peer's name, or a new one if there is none.  No connection is kept for a service without a limit per host or for an
        unknown address. */
    method SearchConnections(s: Sep, peer: Option<Peer>) returns (conn: Option<Conn>)
      requires s in service && s in records.conns
      modifies `records
      ensures conn.None? <==> service[s].maxperip <= 0 || peer.None?
      ensures conn.Some? ==> Found(old(records), s, InfoOf(peer.value, service[s].maxperip), conn.value, records)
      ensures conn.None? ==> records == old(records)
      ensures conn.Some? ==>
                if conn.value in old(records).vector
                then exists k: nat :: IsHost(old(records), names, old(records).conns[s], k, peer.value)
                                      && old(records).conns[s][k] == conn.value
                else forall d :: d in old(records).conns[s] ==> !Matches(old(records), names, d, peer.value)
    {
      if service[s].maxperip <= 0 || peer.None? {
        return None;
      }
      var list := records.conns[s];
      forall c | c in list ensures c in records.owner {
        PointsBack(records.owner, records.conns, c, s);
      }
      for i := 0 to |list|
        invariant forall k :: 0 <= k < i ==> !Matches(records, names, list[k], peer.value)
      {
        var ci := records.info[list[i]];
        if ci.bucket == peer.value.bucket && names(ci.addr) == Some(peer.value.name) {
          assert IsHost(records, names, list, i, peer.value);
          return Some(list[i]);
        }
      }
      var c := records.heap;
      NewConnConsistent(records, s, InfoOf(peer.value, service[s].maxperip));
      records := NewConn(records, s, InfoOf(peer.value, service[s].maxperip));
      conn := Some(c);
    }

    /** `new_connection`: a record in the vector of the connection, unless the host is at its limit. */
    method NewConnection(c: Conn) returns (ok: bool, r: Rec)
      requires c in records.vector
      modifies `records
      requires c in records.info
      ensures ok <==> |old(records).vector[c]| < old(records).info[c].maxchild
      ensures if ok then r == old(records).heap && records == JoinHost(NewRecord(old(records)), r, c)
              else records == old(records)
    {
      ok, r := |records.vector[c]| < records.info[c].maxchild, records.heap;
      if ok {
        HeapIsNew(records);
        NewRecordConsistent(records);
        records := NewRecord(records);
        JoinHostConsistent(records, r, c);
        records := JoinHost(records, r, c);
      }
    }

    /** `addchild`, the records: the child takes its number and joins its service. */
    method Register(s: Sep, pid: Pid, r: Rec) returns (fatal: bool)
      requires s in records.children && pid != NONE
      requires r in records.number && records.number[r] == NONE && records.parent[r].Off?
      modifies `records
      ensures fatal <==> InUse(old(records), pid)
      ensures old(records).hash(pid) in old(records).table
      ensures records == if fatal then old(records) else Admitted(old(records), r, pid, s)
    {
      Known(records, r);
      var q;
      fatal, q := SearchProc(pid);
      if !fatal {
        TakeNumberConsistent(records, r, pid);
        JoinChildrenConsistent(TakeNumber(records, r, pid), r, s);
        records := TakeNumber(records, r, pid);
        records := JoinChildren(records, r, s);
      }
    }

    /** `addchild`: a child more for the service, which is switched off if that reaches the limit.  A
        number already in use is fatal. */
    method AddChild(s: Sep, pid: Pid, r: Rec) returns (fatal: bool)
      requires s in service && Switched(service, allsock, records.children) && service[s].fd >= 0 && pid != NONE
      requires r in records.number && records.number[r] == NONE && records.parent[r].Off?
      modifies `records, `service, `allsock
      ensures fatal <==> InUse(old(records), pid)
      ensures old(records).hash(pid) in old(records).table
      ensures records == if fatal then old(records) else Admitted(old(records), r, pid, s)
      ensures Switched(service, allsock, records.children) && SameButRunning(old(service), service, s)
    {
      hide Consistent;
      fatal := Register(s, pid, r);
      if !fatal {
        SwitchOff(s, old(records).children, records.children[s]);
      } else {
        SetToSame(service, s, service[s]);
      }
    }

    /** The record leaves the child list, and the service is switched on if it may take another. */
    method LeaveService(r: Rec, s: Sep)
      requires r in records.number && records.parent[r] == On(s)
      requires Switched(service, allsock, records.children)
      modifies `records, `service, `allsock
      ensures records == OffChildren(old(records), r)
      ensures Switched(service, allsock, records.children) && SameButRunning(old(service), service, s)
      ensures old(allsock) <= allsock
    {
      LeaveChildrenConsistent(records, r);
      RemoveChild(r);
      SwitchOn(s, old(records).children, records.children[s]);
    }

    /** `reapchild`: the record of the child is released everywhere, and its service is switched on if
        it may take another child. */
    method ReapChild(pid: Pid) returns (found: bool, r: Rec)
      requires Valid() && pid != NONE
      modifies `records, `service, `allsock
      ensures Valid()
      ensures (found <==> InUse(old(records), pid)) && service.Keys == old(service).Keys
      ensures found ==> r in old(records).number && old(records).number[r] == pid && records == Reaped(old(records), r)
      ensures found ==> old(records).parent[r].On? && SameButRunning(old(service), service, old(records).parent[r].key)
      ensures !found ==> records == old(records) && service == old(service) && allsock == old(allsock)
      ensures forall q :: InUse(records, q) <==> InUse(old(records), q) && q != pid
      ensures old(allsock) <= allsock
      ensures WithinLimits(old(service), old(records).children) ==> WithinLimits(service, records.children)
    {
      hide Consistent, Settled, Switched, WithinLimits;
      found, r := SearchProc(pid);
      if found {
        ReapRecord(r);
        ReapedInUse(old(records), r);
        if WithinLimits(old(service), old(records).children) {
          FewerChildren(old(service), old(records), service, records, r);
        }
      }
    }

    /** The record of a child that has exited is released. */
    method ReapRecord(r: Rec)
      requires Valid() && r in records.number
      modifies `records, `service, `allsock
      ensures Valid() && records == Reaped(old(records), r) && old(allsock) <= allsock
      ensures old(records).parent[r].On? && SameButRunning(old(service), service, old(records).parent[r].key)
    {
      hide Consistent, Switched;
      ReapedSettled(records, r);
      Known(records, r);
      LeaveService(r, records.parent[r].key);
      ReleaseRest(r, old(records));
    }

    /** The rest of `reapchild`: `free_proc`, then `free_conn` on the connection it had. */
    method ReleaseRest(r: Rec, ghost x: Books)
      requires r in x.number && records == OffChildren(x, r)
      modifies `records
      ensures records == Reaped(x, r) && records.children == old(records).children
    {
      hide Agree;
      var conn := records.host[r];
      FreedAfterOffChildren(x, r);
      OffHostConsistent(x, r);
      FreeProc(r);
      if conn.On? {
        FreeConn(conn.key);
      }
    }

    // ---- accepting -----------------------------------------------------------------------------

    /** After a failed fork, or for a looping server: the record and the connection are released. */
    method Release(r: Rec, c: Conn, ghost x0: Books, ghost s: Sep, ghost i: ConnInfo, ghost x1: Books)
      requires Settled(x0) && Found(x0, s, i, c, x1) && c in x1.vector
      requires r == x1.heap && records == JoinHost(NewRecord(x1), r, c)
      modifies `records
      ensures records == x0.(heap := records.heap)
    {
      ReleaseTracked(x0, s, i, c, x1);
      FreeProc(r);
      FreeConn(c);
    }

    /** The first half of `do_accept`: a record in the vector of the peer's connection. */
    method TrackHost(s: Sep, peer: Option<Peer>)
      returns (refused: bool, conn: Option<Conn>, r: Rec, ghost x1: Books)
      requires Settled(records) && s in service && s in records.conns
      modifies `records
      ensures refused <==> service[s].maxperip > 0 && peer.Some? && HostFull(old(records), names, s, peer.value)
      ensures refused || conn.None? ==> records == old(records)
      ensures !refused && conn.Some? ==>
                && peer.Some? && Found(old(records), s, InfoOf(peer.value, service[s].maxperip), conn.value, x1)
                && conn.value in x1.vector && r == x1.heap && records == JoinHost(NewRecord(x1), r, conn.value)
      ensures conn.None? ==> x1 == records
      ensures var v := service[s].(accept := true, stream := true);
              !refused ==> forall a: Arrival :: a.peer == peer ==> Sought(old(records), names, s, v, a, conn)
    {
      hide Consistent, Settled;
      ghost var x0 := records;
      refused, r := false, 0;
      conn := SearchConnections(s, peer);
      x1 := records;
      if conn.Some? {
        ghost var i := InfoOf(peer.value, service[s].maxperip);
        TrackedSettled(x0, s, i, conn.value, x1);
        var ok;
        KnownConn(records, conn.value);
        HostIsJudged(x0, names, s, i, peer.value, conn.value, x1);
        ok, r := NewConnection(conn.value);
        if !ok {
          refused := true;
          FreeConn(conn.value);
        }
      }
    }

    /** Nothing but the start counter of `s` differs: the switches are as they were. */
    lemma CountKeepsSwitched(was: map<Sep, Service>, now: map<Sep, Service>, s: Sep, children: map<Sep, seq<Rec>>, allsock: set<int>)
      requires Switched(was, allsock, children) && s in was && s in now
      requires SameSettings(was, now, s) && now[s].running == was[s].running
      ensures Switched(now, allsock, children)
    {
    }

    /** The looping guard of `do_accept`: too many starts within the interval. */
    method CountStart(s: Sep, now: int, ghost children: map<Sep, seq<Rec>>) returns (looping: bool)
      requires s in service && Switched(service, allsock, children)
      modifies `service
      ensures SameSettings(old(service), service, s) && s in service
      ensures Switched(service, allsock, children) && service[s].fd == old(service)[s].fd
      ensures (service[s], looping) == Started(old(service)[s], toomany, now)
    {
      var v := service[s];
      looping := false;
      service := service[s := v.(count := v.count + 1)];
      if v.count == 0 {
        service := service[s := service[s].(since := now)];
      } else if toomany > 0 && v.count + 1 >= toomany {
        if now - v.since > CNT_INTVL {
          service := service[s := service[s].(since := now, count := 1)];
        } else {
          looping := true;
        }
      }
      SetTwice(old(service), s, v.(count := v.count + 1), service[s]);
      CountKeepsSwitched(old(service), service, s, children, allsock);
    }

    /** The end of `do_accept` when the fork has succeeded, for a record in a connection's vector. */
    method AdmitFromHost(s: Sep, pid: Pid, c: Conn, ghost x0: Books, ghost i: ConnInfo, ghost x1: Books, r: Rec)
      returns (fatal: bool)
      requires Settled(x0) && Found(x0, s, i, c, x1) && c in x1.vector && s in x0.children
      requires r == x1.heap && records == TrackedRecord(x1, c) && pid != NONE
      requires Switched(service, allsock, x0.children) && s in service && service[s].fd >= 0
      modifies `records, `service, `allsock
      ensures fatal <==> InUse(x0, pid)
      ensures !fatal ==> Settled(records) && Switched(service, allsock, records.children)
      ensures !fatal ==> Gained(x0, records, r, pid, s) && Standing(x1, records, Some(c), r)
      ensures SameButRunning(old(service), service, s)
    {
      hide Consistent, Settled, Switched, Gained, Standing;
      TrackedInUse(x0, s, i, c, x1, pid);
      fatal := AddChild(s, pid, r);
      if !fatal {
        AdmitTracked(x0, s, i, c, x1, pid);
        AdmittedStands(x1, Some(c), pid, s);
      }
    }

    /** The same for a service that keeps no connections. */
    method AdmitAlone(s: Sep, pid: Pid) returns (fatal: bool, r: Rec)
      requires Settled(records) && s in records.children && pid != NONE
      requires Switched(service, allsock, records.children) && s in service && service[s].fd >= 0
      modifies `records, `service, `allsock
      ensures fatal <==> InUse(old(records), pid)
      ensures !fatal ==> Settled(records) && Switched(service, allsock, records.children)
      ensures !fatal ==> Gained(old(records), records, r, pid, s) && Standing(old(records), records, None, r)
      ensures SameButRunning(old(service), service, s)
    {
      hide Agree, Standing;
      ghost var x0 := records;
      HeapIsNew(x0);
      r := records.heap;
      NewRecordConsistent(records);
      records := NewRecord(records);
      InUseBefore(x0, records, r, pid);
      fatal := AddChild(s, pid, r);
      if !fatal {
        AdmitUntracked(x0, s, pid);
        AdmittedStands(x0, None, pid, s);
      }
    }

    /** What is held is released. */
    method ReleaseHeld(s: Sep, conn: Option<Conn>, r: Rec, ghost i: ConnInfo, ghost x0: Books, ghost x1: Books)
      requires Settled(x0) && Held(x0, s, i, conn, r, x1, records)
      modifies `records
      ensures records == x0.(heap := records.heap)
    {
      if conn.Some? {
        Release(r, conn.value, x0, s, i, x1);
      }
    }

    /** The child becomes known under its number. */
    method AdmitHeld(s: Sep, pid: Pid, conn: Option<Conn>, r: Rec, ghost i: ConnInfo, ghost x0: Books, ghost x1: Books)
      returns (fatal: bool, q: Rec)
      requires Settled(x0) && Held(x0, s, i, conn, r, x1, records) && s in x0.children && pid != NONE
      requires Switched(service, allsock, x0.children) && s in service && service[s].fd >= 0
      modifies `records, `service, `allsock
      ensures fatal <==> InUse(x0, pid)
      ensures !fatal ==> Settled(records) && Switched(service, allsock, records.children)
      ensures !fatal ==> Gained(x0, records, q, pid, s) && Standing(x1, records, conn, q)
      ensures SameButRunning(old(service), service, s)
    {
      if conn.Some? {
        q := r;
        fatal := AdmitFromHost(s, pid, conn.value, x0, i, x1, r);
      } else {
        fatal, q := AdmitAlone(s, pid);
      }
    }

    /** A looping server or a failed fork: what is held is released. */
    method GiveUp(s: Sep, looping: bool, conn: Option<Conn>, r: Rec, ghost i: ConnInfo, ghost x0: Books, ghost x1: Books)
      returns (v: Verdict)
      requires Settled(x0) && Held(x0, s, i, conn, r, x1, records)
      modifies `records
      ensures v == if looping then Looping else ForkFailed
      ensures records == x0.(heap := records.heap)
    {
      ReleaseHeld(s, conn, r, i, x0, x1);
      v := if looping then Looping else ForkFailed;
    }

    /** The second half of `do_accept`: count the start, fork, and keep or release what is held. */
    method Launch(s: Sep, a: Arrival, conn: Option<Conn>, r: Rec, ghost i: ConnInfo, ghost x0: Books, ghost x1: Books)
      returns (v: Verdict)
      requires Settled(x0) && Held(x0, s, i, conn, r, x1, records) && s in x0.children
      requires Switched(service, allsock, x0.children) && s in service && service[s].fd >= 0
      requires a.fork.Some? ==> a.fork.value != NONE
      modifies `records, `service, `allsock
      ensures Launched(x0, old(service)[s], toomany, a, v) && s in service
      ensures service[s].count == Started(old(service)[s], toomany, a.now).0.count
      ensures service[s].since == Started(old(service)[s], toomany, a.now).0.since
      ensures v.Forked? ==> Settled(records) && Switched(service, allsock, records.children)
      ensures v.Forked? ==> a.fork.Some? && Gained(x0, records, v.r, a.fork.value, s)
      ensures v.Forked? ==> Standing(x1, records, conn, v.r)
      ensures v.Looping? || v.ForkFailed? ==> records == x0.(heap := records.heap) && allsock == old(allsock)
      ensures v.Looping? || v.ForkFailed? ==> Switched(service, allsock, x0.children)
      ensures SameSettings(old(service), service, s)
    {
      hide Consistent, Settled, Switched, Gained, Held, Standing;
      ghost var m0 := service;
      var looping := CountStart(s, a.now, x0.children);
      if looping || a.fork.None? {
        v := GiveUp(s, looping, conn, r, i, x0, x1);
      } else {
        v := Keep(s, a.fork.value, conn, r, i, x0, x1, m0);
      }
    }

    /** ... the fork has succeeded, and the child is kept. */
    method Keep(s: Sep, pid: Pid, conn: Option<Conn>, r: Rec, ghost i: ConnInfo, ghost x0: Books, ghost x1: Books,
                ghost m0: map<Sep, Service>)
      returns (v: Verdict)
      requires Settled(x0) && Held(x0, s, i, conn, r, x1, records) && s in x0.children && pid != NONE
      requires Switched(service, allsock, x0.children) && s in service && service[s].fd >= 0
      requires SameSettings(m0, service, s)
      modifies `records, `service, `allsock
      ensures s in service && service[s].count == old(service)[s].count && service[s].since == old(service)[s].since
      ensures if InUse(x0, pid) then v.Fatal? else v.Forked?
      ensures v.Forked? ==> Settled(records) && Switched(service, allsock, records.children)
      ensures v.Forked? ==> Gained(x0, records, v.r, pid, s) && Standing(x1, records, conn, v.r)
      ensures SameSettings(m0, service, s)
    {
      ghost var m1 := service;
      var fatal, q := AdmitHeld(s, pid, conn, r, i, x0, x1);
      CountedAndSwitched(m0, m1, service, s);
      v := if fatal then Fatal else Forked(q);
    }

    /** The switch does not touch the counter, nor the counter the switch. */
    lemma CountedAndSwitched(m0: map<Sep, Service>, m1: map<Sep, Service>, m2: map<Sep, Service>, s: Sep)
      requires SameSettings(m0, m1, s) && SameButRunning(m1, m2, s)
      ensures SameSettings(m0, m2, s) && m2[s].count == m1[s].count && m2[s].since == m1[s].since
    {
      SettingsKept(m0, m1, m2, s);
    }

    /** The first half of `do_accept`: turned away, or going on with what is held. */
    method Hold(s: Sep, a: Arrival) returns (refused: bool, conn: Option<Conn>, r: Rec, ghost x1: Books)
      requires Settled(records) && s in service && s in records.conns
      modifies `records
      ensures (refused <==> TurnedAway(old(records), names, s, service[s], a))
      ensures refused || !service[s].forks ==> records == old(records)
      ensures !refused ==> Held(old(records), s, Wanted(a, service[s]), conn, r, x1, records)
      ensures !refused && service[s].forks ==> Sought(old(records), names, s, service[s], a, conn)
    {
      refused, conn, r, x1 := !a.inTime, None, 0, records;
      if !refused && service[s].accept && service[s].stream && service[s].forks {
        refused, conn, r, x1 := TrackHost(s, a.peer);
      }
    }

    /** `do_accept`, for a bound service.  A fatal duplicate number ends the program; a looping service
        is about to be closed.  In every other case the server is as it must be between events: with
        one child more if the fork succeeded, and unchanged if not. */
    method DoAccept(s: Sep, a: Arrival) returns (v: Verdict)
      requires Valid() && s in service && service[s].fd >= 0 && (a.fork.Some? ==> a.fork.value != NONE)
      modifies `records, `service, `allsock
      ensures Decided(old(records), names, s, old(service)[s], toomany, a, v)
      ensures !v.Fatal? ==> Valid()
      ensures v.Forked? ==> a.fork.Some? && Gained(old(records), records, v.r, a.fork.value, s)
      ensures v.Forked? ==> Counted(old(records), records, names, s, old(service)[s], a, v.r)
      ensures !v.Forked? && !v.Fatal? ==> records == old(records).(heap := records.heap) && allsock == old(allsock)
      ensures s in service && (service[s].count, service[s].since) ==
                if v.Refused? || v.Local? then (old(service)[s].count, old(service)[s].since)
                else (Started(old(service)[s], toomany, a.now).0.count, Started(old(service)[s], toomany, a.now).0.since)
      ensures SameSettings(old(service), service, s)
    {
      hide Hashed, UniqueNumbers, Agree, Gained, Held, Sought, Standing, Counted;
      var refused, conn, r, x1 := Hold(s, a);
      if refused || !service[s].forks {
        SetToSame(service, s, service[s]);
        v := if refused then Refused else Local;
      } else {
        ghost var w, x := service[s], records;
        v := Launch(s, a, conn, r, Wanted(a, w), old(records), x1);
        SettledUnless(v, old(records), records);
        if v.Forked? {
          StandingIsCounted(old(records), names, s, w, a, conn, r, x1, x, records, v.r);
        }
      }
    }

    lemma SettledUnless(v: Verdict, x0: Records, x: Records)
      requires Settled(x0) && (v.Looping? || v.ForkFailed? ==> x == x0.(heap := x.heap))
      ensures v.Looping? || v.ForkFailed? ==> Settled(x)
    {
    }

    // ---- binding, retrying, reconfiguring --------------------------------------------------------

    /** `setup`: bind the service and switch it on; on failure it stays unbound for a later retry. */
    method Setup(s: Sep, b: Bind)
      requires s in service && service[s].enabled && !service[s].running
      modifies `service, `allsock
      ensures service == old(service)[s := old(service)[s].(running := b.Bound?, fd := if b.Bound? then b.fd else -1)]
      ensures allsock == if b.Bound? then old(allsock) + {b.fd} else old(allsock)
    {
      service := service[s := service[s].(fd := if b.Bound? then b.fd else -1)];
      if b.Bound? {
        Enable(s);
      }
      SetTwice(old(service), s, old(service)[s].(fd := if b.Bound? then b.fd else -1), service[s]);
    }

    /** An unbound service is bound, if that works. */
    method Rebind(s: Sep, b: Bind)
      requires Switched(service, allsock, records.children) && s in service && NewFd(b, service, allsock)
      requires service[s].fd < 0 && !service[s].mux
      modifies `service, `allsock
      ensures Switched(service, allsock, records.children) && old(allsock) <= allsock
      ensures service == old(service)[s := old(service)[s].(running := b.Bound?, fd := if b.Bound? then b.fd else -1)]
    {
      OneSwitch(service, allsock, records.children, s);
      SwitchedAfterChange(service, allsock, records.children, s,
                          service[s].(running := b.Bound?, fd := if b.Bound? then b.fd else -1));
      Setup(s, b);
    }

    /** One turn of `retry`: only services that are unbound, and can be bound, are set up. */
    method RetryOne(s: Sep, b: Bind)
      requires Valid() && s in service && NewFd(b, service, allsock)
      modifies `service, `allsock
      ensures Valid() && old(allsock) <= allsock
      ensures old(service)[s].fd >= 0 || old(service)[s].mux ==> service == old(service) && allsock == old(allsock)
      ensures old(service)[s].fd < 0 && !old(service)[s].mux ==>
                service == old(service)[s := service[s]] && IsSetUp(old(service)[s], service[s], b)
    {
      OneSwitch(service, allsock, records.children, s);
      if service[s].enabled {
        if service[s].fd < 0 && !service[s].mux {
          Rebind(s, b);
        }
      }
    }

    /** The descriptors in use. */
    function OpenFds(): set<int>
      reads this
    {
      allsock + set s | s in service :: service[s].fd
    }

    /** `retry`: every service has its turn; `system` answers each attempt to bind. */
    method Retry(order: seq<Sep>, system: (Sep, set<int>) -> Bind)
      requires Valid() && Distinct(order) && (forall s :: s in order ==> s in service) && HandsOutNew(system)
      modifies `service, `allsock
      ensures Valid() && old(allsock) <= allsock && service.Keys == old(service).Keys
      ensures forall s :: s in service ==> if s in order then TriedToBind(old(service)[s], service[s], s, system, old(allsock))
                                           else service[s] == old(service)[s]
      ensures WithinLimits(old(service), records.children) ==> WithinLimits(service, records.children)
    {
      hide Consistent, Settled, Switched, WithinLimits, HandsOutNew;
      ghost var within, m0, a0 := WithinLimits(service, records.children), service, allsock;
      for i := 0 to |order|
        invariant Valid() && a0 <= allsock && service.Keys == m0.Keys
        invariant forall s :: s in service ==> if s in order[..i] then TriedToBind(m0[s], service[s], s, system, a0)
                                               else service[s] == m0[s]
        invariant within ==> WithinLimits(service, records.children)
      {
        ghost var m := service;
        var s := order[i];
        assert s !in order[..i] && order[..i + 1] == order[..i] + [s];
        var b := system(s, OpenFds());
        assert a0 <= OpenFds();
        NewIsNew(system, s, service, allsock);
        RetryOne(s, b);
        assert TriedToBind(m0[s], service[s], s, system, a0);
        if within {
          SameLimits(m, service, records.children);
        }
      }
      assert order[..|order|] == order;
    }

    /** `close_sep`: switch off, give up the descriptor and forget the children.  With children left
        their records would be deleted while still hashed (DrainConsistentIffChildless), so the model
        goes no further then. */
    method CloseSep(s: Sep) returns (intact: bool)
      requires Valid() && s in service
      modifies `service, `allsock
      ensures Valid() && (intact <==> old(records).children[s] == [])
      ensures intact ==> s in service && service == old(service)[s := old(service)[s].(
                running := false, count := 0, fd := if old(service)[s].fd >= 0 then -1 else old(service)[s].fd)]
      ensures !intact ==> service == old(service) && allsock == old(allsock)
    {
      hide Consistent, Settled;
      intact := records.children[s] == [];
      if intact {
        OneSwitch(service, allsock, records.children, s);
        SwitchedAfterChange(service, allsock, records.children, s, service[s].(
                              running := false, count := 0, fd := if service[s].fd >= 0 then -1 else service[s].fd));
        Disable(s, true);
        ghost var v := service[s];
        service := service[s := service[s].(count := 0)];
        SetTwice(old(service), s, v, service[s]);
      }
    }

    /** `connections_free`: every connection of the service is cleared and deleted. */
    method ConnectionsFree(s: Sep)
      requires Settled(records) && s in records.conns
      modifies `records
      ensures Settled(records) && s in records.conns && records.conns[s] == []
      ensures records.number == old(records).number && records.parent == old(records).parent
      ensures records.children == old(records).children
    {
      hide Hashed, UniqueNumbers;
      var list := records.conns[s];
      for i := 0 to |list|
        invariant Settled(records) && s in records.conns && records.conns[s] == list[i..]
        invariant records.number == old(records).number && records.parent == old(records).parent
        invariant records.children == old(records).children
      {
        var c := list[i];
        assert list[i..][0] == c;
        PointsBack(records.owner, records.conns, c, s);
        ClearedSettled(records, c);
        WithoutAt(list[i..], 0);
        assert list[i..][1..] == list[i + 1..];
        records := ClearHost(records, c);
        records := DeleteConn(records, c);
      }
    }

    /** `connections_resize`: the new limit per host for the connections there are, or, without a limit,
        their release.  (The limit that new connections get is not updated.) */
    method ConnectionsResize(s: Sep, maxperip: int)
      requires Settled(records) && s in records.conns
      modifies `records
      ensures Settled(records) && s in records.conns
      ensures records.number == old(records).number && records.parent == old(records).parent
      ensures records.children == old(records).children
      ensures maxperip <= 0 ==> records.conns[s] == []
      ensures maxperip > 0 ==> records.conns == old(records).conns && records.vector == old(records).vector
      ensures maxperip > 0 ==> forall c :: c in records.conns[s] ==> c in records.info && records.info[c].maxchild == maxperip
    {
      hide Agree, Hashed, UniqueNumbers, Settled;
      if maxperip <= 0 {
        ConnectionsFree(s);
        return;
      }
      var list := records.conns[s];
      ghost var x0 := records;
      for i := 0 to |list|
        invariant records == x0.(info := records.info)
        invariant forall k :: 0 <= k < i ==> list[k] in records.info && records.info[list[k]].maxchild == maxperip
      {
        PointsBack(records.owner, records.conns, list[i], s);
        ResizeConsistent(records, list[i], maxperip);
        records := Resize(records, list[i], maxperip);
      }
      SettledWhateverInfo(x0, records);
    }

    /** `config` for a service that stays: off if the new limit is reached or the accept mode changes. */
    method RetuneLimits(s: Sep, maxchild: int, accept: bool)
      requires s in service && service[s].enabled
      modifies `service, `allsock
      ensures var v := old(service)[s];
              var off := v.fd >= 0 && (ExceedsLimit(maxchild, |records.children[s]|) || v.accept != accept);
              && service == old(service)[s := v.(maxchild := maxchild, accept := accept, running := v.running && !off)]
              && allsock == if off && v.running then old(allsock) - {v.fd} else old(allsock)
      requires s in records.children
    {
      ghost var m0 := service;
      var was := service[s].accept;
      service := service[s := service[s].(maxchild := maxchild)];
      ghost var m1 := service;
      if service[s].fd >= 0 {
        if ExceedsLimit(service[s].maxchild, |records.children[s]|) || was != accept {
          Disable(s, false);
        }
      }
      ghost var m2 := service;
      service := service[s := service[s].(accept := accept)];
      SetToSame(m1, s, m1[s]);
      SetTwice(m0, s, m1[s], m2[s]);
      SetTwice(m0, s, m2[s], service[s]);
    }

    /** ... closed when its address has changed, which leaves it unbound ... */
    method CloseForReset(s: Sep, ghost m0: map<Sep, Service>, ghost a0: set<int>)
      requires Switched(m0, a0, records.children) && s in m0 && s in service && service == m0[s := service[s]]
      requires service[s].enabled && service[s].mux == m0[s].mux && service[s].fd == m0[s].fd
      requires service[s].running ==> m0[s].running && !ExceedsLimit(service[s].maxchild, |records.children[s]|)
      requires allsock == if m0[s].running && !service[s].running then a0 - {m0[s].fd} else a0
      requires !service[s].mux && service[s].fd >= 0 && records.children[s] == []
      modifies `service, `allsock
      ensures Switched(service, allsock, records.children) && s in service
      ensures service == old(service)[s := old(service)[s].(running := false, fd := -1, count := 0)]
      ensures allsock == if m0[s].running then a0 - {m0[s].fd} else a0
    {
      hide Consistent;
      OneSwitch(m0, a0, records.children, s);
      ghost var v := service[s];
      Disable(s, true);
      ghost var m1 := service;
      service := service[s := service[s].(count := 0)];
      SetTwice(m0, s, v, service[s]);
      SetTwice(m0, s, m1[s], service[s]);
      SwitchedAfterChange(m0, a0, records.children, s, service[s]);
    }

    /** ... or switched on again if it may take a child. */
    method Reenable(s: Sep, ghost m0: map<Sep, Service>, ghost a0: set<int>)
      requires Switched(m0, a0, records.children) && s in m0 && s in service && service == m0[s := service[s]]
      requires service[s].enabled && service[s].mux == m0[s].mux && service[s].fd == m0[s].fd
      requires service[s].running ==> m0[s].running && !ExceedsLimit(service[s].maxchild, |records.children[s]|)
      requires allsock == if m0[s].running && !service[s].running then a0 - {m0[s].fd} else a0
      requires !service[s].mux && service[s].fd >= 0
      modifies `service, `allsock
      ensures Switched(service, allsock, records.children) && s in service
      ensures SameButRunning(old(service), service, s)
    {
      OneSwitch(m0, a0, records.children, s);
      ghost var m1 := service;
      if !ExceedsLimit(service[s].maxchild, |records.children[s]|) {
        Enable(s);
        SetTwice(m0, s, m1[s], service[s]);
      } else {
        SetToSame(service, s, service[s]);
      }
      SwitchedAfterChange(m0, a0, records.children, s, service[s]);
    }

    /** ... so closed if the address changed; then bound, or on if it may take a child. */
    method RetuneSocket(s: Sep, reset: bool, b: Bind, ghost m0: map<Sep, Service>, ghost a0: set<int>)
      requires Switched(m0, a0, records.children) && s in m0 && s in service && service == m0[s := service[s]]
      requires service[s].enabled && service[s].mux == m0[s].mux && service[s].fd == m0[s].fd
      requires service[s].running ==> m0[s].running && !ExceedsLimit(service[s].maxchild, |records.children[s]|)
      requires allsock == if m0[s].running && !service[s].running then a0 - {m0[s].fd} else a0
      requires reset && service[s].fd >= 0 ==> records.children[s] == []
      requires NewFdAfterClose(b, m0, a0, s, reset)
      modifies `service, `allsock
      ensures Switched(service, allsock, records.children) && s in service
      ensures service[s].maxchild == old(service)[s].maxchild && service[s].accept == old(service)[s].accept
      ensures service[s].fd == Rebound(old(service)[s], reset, b) && service == old(service)[s := service[s]]
    {
      hide Consistent, Switched, ExceedsLimit, DistinctFds;
      OneSwitch(m0, a0, records.children, s);
      if service[s].mux {
        SwitchedAfterChange(m0, a0, records.children, s, service[s]);
      } else if reset && service[s].fd >= 0 {
        ghost var was := service;
        CloseForReset(s, m0, a0);
        SameFds(b, m0[s := m0[s].(fd := -1)], service, a0 - {m0[s].fd}, allsock);
        ghost var closed := service[s];
        Rebind(s, b);
        SetTwice(was, s, closed, service[s]);
      } else if service[s].fd < 0 {
        SwitchedAfterChange(m0, a0, records.children, s, service[s]);
        Rebind(s, b);
      } else {
        Reenable(s, m0, a0);
      }
    }

    /** `config` for a service that stays.  Closing a service that still has children is outside the
        model (DrainConsistentIffChildless). */
    method Reconfigure(s: Sep, maxchild: int, accept: bool, maxperip: int, reset: bool, b: Bind) returns (intact: bool)
      requires Valid() && s in service && NewFdAfterClose(b, service, allsock, s, reset)
      modifies `records, `service, `allsock
      ensures intact ==> Valid() && service.Keys == old(service).Keys
      ensures intact ==> service[s].maxchild == maxchild && service[s].accept == accept
      ensures intact ==> service[s].fd == Rebound(old(service)[s], reset, b)
      ensures intact ==> forall t :: t in service && t != s ==> service[t] == old(service)[t]
      ensures intact <==> !(reset && old(service)[s].fd >= 0 && old(records).children[s] != [])
      ensures records.number == old(records).number && records.children == old(records).children
      ensures records.parent == old(records).parent
    {
      ConnectionsResize(s, maxperip);
      intact := !(reset && service[s].fd >= 0 && records.children[s] != []);
      if intact {
        ghost var m0, a0 := service, allsock;
        OneSwitch(m0, a0, records.children, s);
        RetuneLimits(s, maxchild, accept);
        RetuneSocket(s, reset, b, m0, a0);
      }
    }

    /** The descriptors in use once that of `s` is closed, if it is to be. */
    function OpenAfterClose(s: Sep, closing: bool): set<int>
      requires s in service
      reads this
    {
      if closing && service[s].fd >= 0
      then allsock - {service[s].fd} + set t | t in service && t != s :: service[t].fd
      else OpenFds()
    }

    /** `config`, for the services that stay. */
    method Configure(changes: seq<Change>, system: (Sep, set<int>) -> Bind) returns (intact: bool)
      requires Valid() && (forall i :: 0 <= i < |changes| ==> changes[i].s in service) && HandsOutNew(system)
      modifies `records, `service, `allsock
      ensures intact ==> Valid() && AllRetuned(changes, old(service), service)
      ensures records.number == old(records).number && records.children == old(records).children
      ensures records.parent == old(records).parent
    {
      hide Consistent, Settled, Switched;
      for i := 0 to |changes|
        invariant Valid() && AllRetuned(changes[..i], old(service), service)
        invariant records.number == old(records).number && records.children == old(records).children
        invariant records.parent == old(records).parent
      {
        var c := changes[i];
        var b := system(c.s, OpenAfterClose(c.s, c.reset));
        NewAfterClose(system, service, allsock, c.s, c.reset);
        ghost var m := service;
        intact := Reconfigure(c.s, c.maxchild, c.accept, c.maxperip, c.reset, b);
        if !intact {
          return;
        }
        OneMoreChange(changes, i, old(service), m, service);
      }
      assert changes[..|changes|] == changes;
      intact := true;
    }

    // ---- one round of the main loop --------------------------------------------------------------

    /** One readable service: it accepts, and is closed if it loops.  Other services and their children
        are not touched, and the service gains at most one child. */
    method Accepting(s: Sep, a: Arrival) returns (v: Verdict, completed: bool)
      requires Valid() && s in service && service[s].fd >= 0 && (a.fork.Some? ==> a.fork.value != NONE)
      modifies `records, `service, `allsock
      ensures Decided(old(records), names, s, old(service)[s], toomany, a, v)
      ensures v.Forked? ==> a.fork.Some? && Gained(old(records), records, v.r, a.fork.value, s)
      ensures !v.Forked? && !v.Fatal? ==> records == old(records).(heap := records.heap)
      ensures completed <==> !v.Fatal? && (v.Looping? ==> s in old(records).children && old(records).children[s] == [])
      ensures completed ==> Valid() && s in service && Served(old(service), service, s, toomany, a.now, v)
      ensures v.Forked? ==> Counted(old(records), records, names, s, old(service)[s], a, v.r)
      ensures completed ==> OthersSame(old(service), old(records).children, service, records.children, s)
      ensures completed ==> AtMostOneMore(old(service), old(records).children, service, records.children, s)
    {
      hide Consistent, Settled, Decided, Counted, Served, Started;
      ghost var m0, x0 := service, records;
      v := DoAccept(s, a);
      ghost var m1, x1 := service, records;
      completed := !v.Fatal?;
      if v.Looping? {
        completed := CloseSep(s);
      }
      if completed {
        ServedUnless(m0, m1, service, s, toomany, a.now, v);
        OneServiceChanged(m0, x0, m1, x1, service, s, if v.Forked? then Some((v.r, a.fork.value)) else None);
      }
    }

    /** The same, unless the access checks turn the connection away before. */
    method OnReadable(s: Sep, a: Arrival) returns (outcome: Option<Verdict>, completed: bool)
      requires Valid() && s in service && service[s].fd >= 0 && (a.fork.Some? ==> a.fork.value != NONE)
      modifies `records, `service, `allsock
      ensures var v := old(service)[s];
              if v.accept && v.stream && !a.through then outcome.None? && completed && Now() == old(Now())
              else outcome.Some? && Decided(old(records), names, s, v, toomany, a, outcome.value)
      ensures completed ==> Valid() && TurnOk(Turn(s, old(Now()), outcome, Now()), names, toomany, a)
      ensures completed ==> OthersSame(old(service), old(records).children, service, records.children, s)
      ensures completed ==> AtMostOneMore(old(service), old(records).children, service, records.children, s)
    {
      hide Consistent, Settled, Decided, Counted, Served;
      if service[s].accept && service[s].stream && !a.through {
        NothingChanged(service, records.children, s);
        return None, true;
      }
      var v;
      v, completed := Accepting(s, a);
      outcome := Some(v);
    }

    /** The network events of one round: every service whose descriptor is readable has its turn, in order.  The
        round ends early when the program is about to stop, or when a looping service that still has
        children is closed (see CloseSep).  If the readable descriptors were in the select set, no
        child limit is exceeded. */
    method NetworkEvents(order: seq<Sep>, readable: set<int>, arrivals: Sep -> Arrival)
      returns (completed: bool, ghost turns: seq<Turn>)
      requires Valid() && Distinct(order) && (forall s :: s in order ==> s in service)
      requires forall s :: arrivals(s).fork.Some? ==> arrivals(s).fork.value != NONE
      modifies `records, `service, `allsock
      ensures completed ==> Valid() && service.Keys == old(service).Keys
      ensures completed ==> Lead(turns, old(Now()), Now()) && TurnsOk(turns, names, toomany, arrivals)
      ensures completed ==> Sources(turns) == ReadableOf(order, old(service), readable)
      ensures completed && readable <= old(allsock) && WithinLimits(old(service), old(records).children) ==>
                WithinLimits(service, records.children)
    {
      hide Consistent, Settled, TurnOk;
      ghost var m0, c0, a0 := service, records.children, allsock;
      turns := [];
      for i := 0 to |order|
        invariant Valid() && service.Keys == m0.Keys
        invariant Lead(turns, old(Now()), Now()) && TurnsOk(turns, names, toomany, arrivals)
        invariant Sources(turns) == ReadableOf(order[..i], m0, readable)
        invariant Untouched(order[i..], m0, c0, service, records.children)
        invariant readable <= a0 && WithinLimits(m0, c0) ==> WithinLimits(service, records.children)
      {
        ghost var m, c, now := service, records.children, Now();
        var s := order[i];
        UntouchedHead(order[i..], m0, c0, m, c);
        OneMoreReadable(order, i, m0, readable);
        assert order[i..][1..] == order[i + 1..] && Distinct(order[i..]);
        if service[s].fd >= 0 && service[s].fd in readable {
          var outcome;
          outcome, completed := OnReadable(s, arrivals(s));
          if !completed {
            return;
          }
          ghost var t := Turn(s, now, outcome, Now());
          OneMoreTurn(turns, t, old(Now()));
          turns := turns + [t];
          UntouchedTail(order[i..], m0, c0, m, c, service, records.children);
          if readable <= a0 && WithinLimits(m0, c0) {
            OneSwitch(m0, a0, c0, s);
            OneMoreChild(m, c, service, records.children, s);
          }
        }
      }
      assert order[..|order|] == order;
      completed := true;
    }

    /** `reapchildren`, for the children that have exited. */
    method ReapAll(exited: seq<Pid>)
      requires Valid() && NONE !in exited
      modifies `records, `service, `allsock
      ensures Valid() && old(allsock) <= allsock && OnlySwitches(old(service), service)
      ensures forall q :: InUse(records, q) <==> InUse(old(records), q) && q !in exited
      ensures WithinLimits(old(service), old(records).children) ==> WithinLimits(service, records.children)
    {
      hide Consistent, Settled, Switched, WithinLimits, InUse;
      ghost var within := WithinLimits(service, records.children);
      for i := 0 to |exited|
        invariant Valid() && old(allsock) <= allsock && OnlySwitches(old(service), service)
        invariant forall q :: InUse(records, q) <==> InUse(old(records), q) && q !in exited[..i]
        invariant within ==> WithinLimits(service, records.children)
      {
        var found, r := ReapChild(exited[i]);
        assert exited[..i + 1] == exited[..i] + [exited[i]];
      }
      assert exited[..|exited|] == exited;
    }

    /** One signal of the queue.  The program goes on unless it is to stop, or a service that still has children
        is closed (see Reconfigure). */
    method OnSignal(order: seq<Sep>, signal: Signal, system: (Sep, set<int>) -> Bind) returns (goesOn: bool)
      requires Valid() && Distinct(order) && (forall s :: s in order ==> s in service)
      requires HandsOutNew(system) && Sound(signal, service.Keys)
      modifies `records, `service, `allsock
      ensures goesOn ==> Valid() && Handled(signal, old(Now()), Now(), order, system)
      ensures goesOn && !signal.Hup? ==> old(allsock) <= allsock
      ensures goesOn && !signal.Hup? && WithinLimits(old(service), old(records).children) ==>
                WithinLimits(service, records.children)
    {
      goesOn := true;
      match signal
      case Alrm => Retry(order, system);
      case Chld(exited) => ReapAll(exited);
      case Hup(changes) => goesOn := Configure(changes, system);
      case Term => goesOn := false;
    }

    /** A round of the main loop: `select` reports part of the select set, the signals that are queued are
        handled one after the other, and then the services that are readable have their turns.  The invariants
        hold after it, and unless the round reconfigured services none has more children than its limit.
        `seen` is the server before the first signal and after each. */
    method Round(order: seq<Sep>, readable: set<int>, signals: seq<Signal>, system: (Sep, set<int>) -> Bind,
                 arrivals: Sep -> Arrival)
      returns (completed: bool, ghost seen: seq<Snapshot>, ghost turns: seq<Turn>)
      requires Valid() && Distinct(order) && (forall s :: s in order ==> s in service)
      requires readable <= allsock && HandsOutNew(system)
      requires forall i :: 0 <= i < |signals| ==> Sound(signals[i], service.Keys)
      requires forall s :: arrivals(s).fork.Some? ==> arrivals(s).fork.value != NONE
      modifies `records, `service, `allsock
      ensures completed ==> Valid() && service.Keys == old(service).Keys
      ensures completed ==> |seen| == |signals| + 1 && seen[0] == old(Now())
      ensures completed ==> forall i :: 0 <= i < |signals| ==> Handled(signals[i], seen[i], seen[i + 1], order, system)
      ensures completed ==> Lead(turns, seen[|signals|], Now()) && TurnsOk(turns, names, toomany, arrivals)
      ensures completed ==> seen[|signals|].service.Keys == old(service).Keys
                            && Sources(turns) == ReadableOf(order, seen[|signals|].service, readable)
      ensures completed && WithinLimits(old(service), old(records).children) && Unchanged(signals) ==>
                WithinLimits(service, records.children)
    {
      hide Consistent, Settled, Switched, WithinLimits, Handled, TurnsOk, Lead, Sources;
      ghost var within := WithinLimits(service, records.children);
      seen, turns := [Now()], [];
      for i := 0 to |signals|
        invariant Valid() && service.Keys == old(service).Keys
        invariant |seen| == i + 1 && seen[0] == old(Now()) && seen[i] == Now()
        invariant forall j :: 0 <= j < i ==> Handled(signals[j], seen[j], seen[j + 1], order, system)
        invariant Unchanged(signals[..i]) ==> readable <= allsock && (within ==> WithinLimits(service, records.children))
      {
        completed := OnSignal(order, signals[i], system);
        if !completed {
          return;
        }
        HandledKeepsServices(signals[i], seen[i], Now(), order, system);
        seen := seen + [Now()];
        assert signals[..i + 1] == signals[..i] + [signals[i]];
      }
      assert signals[..|signals|] == signals;
      completed, turns := NetworkEvents(order, readable, arrivals);
    }
  }

  lemma HandledKeepsServices(signal: Signal, a: Snapshot, b: Snapshot, order: seq<Sep>, system: (Sep, set<int>) -> Bind)
    requires Handled(signal, a, b, order, system)
    ensures b.service.Keys == a.service.Keys
  {
  }

  /** Reaping makes one number free. */
  lemma ReapedInUse(x: Books, r: Rec)
    requires Settled(x) && r in x.number
    ensures forall q :: InUse(Reaped(x, r), q) <==> InUse(x, q) && q != x.number[r]
  {
    hide Reaped, Settled, Agree, Hashed;
    var y := Reaped(x, r);
    ReapedNumbers(x, r);
    NumberIsOwn(x, r);
    forall q ensures InUse(y, q) <==> InUse(x, q) && q != x.number[r] {
      if InUse(x, q) && q != x.number[r] {
        var p :| p in x.number && x.number[p] == q;
        assert p in y.number && y.number[p] == q;
      }
    }
  }

  lemma NumberIsOwn(x: Books, r: Rec)
    requires Settled(x) && r in x.number
    ensures forall p :: p in x.number && x.number[p] == x.number[r] ==> p == r
  {
    hide Agree, Hashed;
  }

  /** So a second caller from one address is let in, even by a service for one call from each. */
  method SecondCallIsLetIn(server: Server, s: Sep, a: Arrival, b: Arrival) returns (v: Verdict, w: Verdict)
    requires server.Valid() && s in server.service && server.service[s].fd >= 0 && NamesInternetOnly(server.names)
    requires server.service[s].forks && server.service[s].maxperip == 1 && server.toomany <= 0
    requires a.inTime && b.inTime && a.peer.Some? && a.peer == b.peer
    requires a.fork.Some? && b.fork.Some? && a.fork != b.fork && a.fork.value != NONE && b.fork.value != NONE
    requires !InUse(server.records, a.fork.value) && !InUse(server.records, b.fork.value)
    modifies server
    ensures server.Valid() && v.Forked? && w.Forked? && v.r != w.r
    ensures v.r in server.records.parent && w.r in server.records.parent
    ensures server.records.parent[v.r] == server.records.parent[w.r] == On(s)
  {
    ghost var x, m := server.records, server.service[s];
    v := server.DoAccept(s, a);
    ForkIsKept(x, server.names, s, m, server.toomany, a, v);
    ghost var y := server.records;
    GainedOther(x, y, v.r, a.fork.value, s, b.fork.value);
    ghost var n := server.service[s];
    w := server.DoAccept(s, b);
    ForkIsKept(y, server.names, s, n, server.toomany, b, w);
    GainedTwice(x, y, server.records, v.r, w.r, a.fork.value, b.fork.value, s);
  }

  /** Were stored addresses read back as the names of their peers, the second caller would be turned away there: the
      limit itself is kept. */
  method SecondCallWouldBeRefused(server: Server, s: Sep, a: Arrival, b: Arrival) returns (v: Verdict, w: Verdict)
    requires server.Valid() && s in server.service && server.service[s].fd >= 0
    requires server.service[s].forks && server.service[s].maxperip == 1 && server.toomany <= 0
    requires server.service[s].accept && server.service[s].stream
    requires a.inTime && b.inTime && a.peer.Some? && a.peer == b.peer && (b.fork.Some? ==> b.fork.value != NONE)
    requires a.fork.Some? && a.fork.value != NONE && !InUse(server.records, a.fork.value)
    requires server.names(a.peer.value.stored) == Some(a.peer.value.name)
    requires s in server.records.conns
    requires forall c :: c in server.records.conns[s] ==> !Matches(server.records, server.names, c, a.peer.value)
    modifies server
    ensures server.Valid() && v.Forked? && w.Refused?
  {
    hide Consistent, Settled;
    ghost var x, m := server.records, server.service[s];
    v := server.DoAccept(s, a);
    ghost var y := server.records;
    CountedFirst(x, y, server.names, s, m, a, v.r);
    w := server.DoAccept(s, b);
  }

  /** The first child of a peer leaves the peer's new connection at a limit of one. */
  lemma CountedFirst(x: Records, y: Records, names: Namer, s: Sep, v: Service, a: Arrival, r: Rec)
    requires Counted(x, y, names, s, v, a, r) && v.accept && v.stream && v.maxperip == 1 && a.peer.Some?
    requires names(a.peer.value.stored) == Some(a.peer.value.name)
    requires s in x.conns && forall c :: c in x.conns[s] ==> !Matches(x, names, c, a.peer.value)
    ensures HostFull(y, names, s, a.peer.value)
  {
    var c :| Sought(x, names, s, v, a, Some(c)) && y.host[r] == On(c);
    assert c !in x.vector;
    assert IsHost(y, names, y.conns[s], 0, a.peer.value) && AtLimit(y, y.conns[s][0]);
  }

  /** As no host is ever at its limit, a child that was forked in time is kept. */
  lemma ForkIsKept(x: Records, names: Namer, s: Sep, v: Service, toomany: int, a: Arrival, verdict: Verdict)
    requires Decided(x, names, s, v, toomany, a, verdict) && NamesInternetOnly(names)
    requires v.forks && toomany <= 0 && a.inTime && a.fork.Some? && !InUse(x, a.fork.value)
    ensures verdict.Forked?
  {
    HostLimitNeverRefuses(x, names, s, v, a);
  }

  lemma GainedOther(x: Records, y: Records, r: Rec, pid: Pid, s: Sep, other: Pid)
    requires Gained(x, y, r, pid, s) && other != pid && !InUse(x, other)
    ensures !InUse(y, other)
  {
  }

  lemma GainedTwice(x: Records, y: Records, z: Records, r: Rec, q: Rec, pid: Pid, qid: Pid, s: Sep)
    requires Gained(x, y, r, pid, s) && Gained(y, z, q, qid, s)
    ensures r != q && r in z.parent && q in z.parent && z.parent[r] == z.parent[q] == On(s)
  {
  }

  /** New settings for a service, and whether its address has changed. */
  datatype Change = Change(s: Sep, maxchild: int, accept: bool, maxperip: int, reset: bool)

  datatype Signal = Alrm | Chld(exited: seq<Pid>) | Hup(changes: seq<Change>) | Term

  ghost predicate Sound(signal: Signal, services: set<Sep>) {
    match signal
    case Chld(exited) => NONE !in exited
    case Hup(changes) => forall i :: 0 <= i < |changes| ==> changes[i].s in services
    case _ => true
  }

  /** No signal asks for new settings. */
  ghost predicate Unchanged(signals: seq<Signal>) {
    forall i :: 0 <= i < |signals| ==> !signals[i].Hup?
  }

  /** Nothing changed for the services other than `s`. */
  ghost predicate OthersSame(m: map<Sep, Service>, c: map<Sep, seq<Rec>>, m': map<Sep, Service>, c': map<Sep, seq<Rec>>, s: Sep) {
    && m'.Keys == m.Keys && c'.Keys == c.Keys
    && (forall t :: t != s ==> (t in m ==> m'[t] == m[t]) && (t in c ==> c'[t] == c[t]))
  }

  /** A service that accepted, and was closed or not. */
  lemma OneServiceChanged(m0: map<Sep, Service>, x0: Books, m1: map<Sep, Service>, x1: Books, m2: map<Sep, Service>, s: Sep,
                          child: Option<(Rec, Pid)>)
    requires SameSettings(m0, m1, s) && s in x0.children && s in m2 && (m2 == m1 || m2 == m1[s := m2[s]])
    requires m2[s].maxchild == m1[s].maxchild
    requires if child.Some? then Gained(x0, x1, child.value.0, child.value.1, s) else x1.children == x0.children
    ensures OthersSame(m0, x0.children, m2, x1.children, s)
    ensures AtMostOneMore(m0, x0.children, m2, x1.children, s)
  {
    hide Consistent, Settled;
  }

  lemma NothingChanged(m: map<Sep, Service>, c: map<Sep, seq<Rec>>, s: Sep)
    requires s in m && s in c
    ensures OthersSame(m, c, m, c, s) && AtMostOneMore(m, c, m, c, s)
  {
  }

  /** The service `s` keeps its limit and gains at most one child. */
  ghost predicate AtMostOneMore(m: map<Sep, Service>, c: map<Sep, seq<Rec>>, m': map<Sep, Service>, c': map<Sep, seq<Rec>>, s: Sep) {
    s in m && s in m' && s in c && s in c' && m'[s].maxchild == m[s].maxchild && |c'[s]| <= |c[s]| + 1
  }

  ghost predicate Untouched(l: seq<Sep>, m0: map<Sep, Service>, c0: map<Sep, seq<Rec>>, m: map<Sep, Service>, c: map<Sep, seq<Rec>>) {
    forall s :: s in l ==> s in m0 && s in m && s in c0 && s in c && m[s] == m0[s] && c[s] == c0[s]
  }

  lemma UntouchedHead(l: seq<Sep>, m0: map<Sep, Service>, c0: map<Sep, seq<Rec>>, m: map<Sep, Service>, c: map<Sep, seq<Rec>>)
    requires l != [] && Untouched(l, m0, c0, m, c)
    ensures var s := l[0]; s in m0 && s in m && s in c0 && s in c && m[s] == m0[s] && c[s] == c0[s]
    ensures Untouched(l[1..], m0, c0, m, c)
  {
  }

  lemma UntouchedTail(l: seq<Sep>, m0: map<Sep, Service>, c0: map<Sep, seq<Rec>>,
                      m: map<Sep, Service>, c: map<Sep, seq<Rec>>, m': map<Sep, Service>, c': map<Sep, seq<Rec>>)
    requires l != [] && Distinct(l) && Untouched(l, m0, c0, m, c) && OthersSame(m, c, m', c', l[0])
    ensures Untouched(l[1..], m0, c0, m', c')
  {
  }

  lemma FewerChildren(m: map<Sep, Service>, x: Books, m': map<Sep, Service>, y: Records, r: Rec)
    requires WithinLimits(m, x.children) && r in x.number && x.parent[r].On? && y == Reaped(x, r)
    requires SameButRunning(m, m', x.parent[r].key)
    ensures WithinLimits(m', y.children)
  {
    LeaveChildrenConsistent(x, r);
  }

  lemma OneMoreChild(m: map<Sep, Service>, c: map<Sep, seq<Rec>>, m': map<Sep, Service>, c': map<Sep, seq<Rec>>, s: Sep)
    requires WithinLimits(m, c) && OthersSame(m, c, m', c', s) && AtMostOneMore(m, c, m', c', s)
    requires !ExceedsLimit(m[s].maxchild, |c[s]|)
    ensures WithinLimits(m', c')
  {
  }

  lemma SameLimits(m: map<Sep, Service>, m': map<Sep, Service>, c: map<Sep, seq<Rec>>)
    requires WithinLimits(m, c) && m'.Keys == m.Keys && forall s :: s in m ==> m'[s].maxchild == m[s].maxchild
    ensures WithinLimits(m', c)
  {
  }

  lemma SettledWhateverInfo(x: Records, y: Records)
    requires Settled(x) && y == x.(info := y.info)
    ensures Settled(y)
  {
  }
}
