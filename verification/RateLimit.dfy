/** The per-host rate limiter as a machine over values: what one call of `check_limit` does to the
    list of hosts, and what that means over whole runs.

    The list is kept in order of last use.  Each host counts its calls in a ring of six slots of ten
    seconds each; a host over its limit may be put in quarantine until a given time. */
module RateLimit {
  import opened HostKey

  const CHTGRAN := 10
  const CHTSIZE := 6
  const UINT := 0x1_0000_0000

  datatype CTime = CTime(ticks: nat, count: nat)

  const NEVER := CTime(0, 0)

  type Ring = t: seq<CTime> | |t| == CHTSIZE witness [NEVER, NEVER, NEVER, NEVER, NEVER, NEVER]

  const UNUSED: Ring := [NEVER, NEVER, NEVER, NEVER, NEVER, NEVER]

  datatype Entry = Entry(key: Key, times: Ring, ltime: nat, dtime: nat)

  /** One call: the host, the time, the limits of its service, and whether memory is left for one
      more host. */
  datatype Call = Call(key: Key, now: nat, maxcpm: int, cpmwait: int, room: bool)

  /** `Raised` is the exception of the pool when it has no memory for one more record. */
  datatype Verdict = Pass | Exceeded | Waiting | Raised

  // ---- one call ------------------------------------------------------------------------------

  /** The tick of a time, in the 32 bits that the source keeps. */
  function Tick(now: nat): nat {
    now / CHTGRAN % UINT
  }

  /** Count one call at tick `t`. */
  function Bump(times: Ring, t: nat): Ring {
    var j := t % CHTSIZE;
    times[j := if times[j].ticks != t then CTime(t, 1) else CTime(t, times[j].count + 1)]
  }

  /** The slot lies in the window that ends at tick `t`; the lower end is an unsigned difference. */
  predicate InWindow(c: CTime, t: nat) {
    (t - CHTSIZE) % UINT <= c.ticks <= t
  }

  /** What slot `j` adds to the count at tick `t`. */
  function Share(times: Ring, t: nat, j: nat): nat
    requires j < CHTSIZE
  {
    if InWindow(times[j], t) then times[j].count else 0
  }

  function Total(times: Ring, t: nat, n: nat): nat
    requires n <= CHTSIZE
  {
    if n == 0 then 0 else Total(times, t, n - 1) + Share(times, t, n - 1)
  }

  ghost predicate Known(s: seq<Entry>, k: Key) {
    exists i :: 0 <= i < |s| && s[i].key == k
  }

  /** Where the host stands on the list; the length of the list when it does not. */
  ghost function Find(s: seq<Entry>, k: Key): (i: nat)
    ensures Known(s, k) ==> i < |s| && s[i].key == k
    ensures !Known(s, k) ==> i == |s|
  {
    if Known(s, k) then var i :| 0 <= i < |s| && s[i].key == k; i else |s|
  }

  /** The guard under which an unknown host takes over the least recently used record. */
  predicate Recyclable(e: Entry, now: nat) {
    now + 60 > e.ltime && now >= e.dtime
  }

  datatype Place = Placed(rest: seq<Entry>, node: Entry) | NoPlace

  /** The record of the host, taken off the list: its own, a recycled one, or a new one. */
  ghost function GetNode(s: seq<Entry>, k: Key, now: nat, room: bool): Place {
    var i := Find(s, k);
    if i < |s| then Placed(s[..i] + s[i + 1..], s[i].(ltime := now))
    else if s != [] && Recyclable(s[0], now) then Placed(s[1..], Entry(k, UNUSED, now, s[0].dtime))
    else if room then Placed(s, Entry(k, UNUSED, now, 0))
    else NoPlace
  }

  predicate Barred(e: Entry, c: Call) {
    e.dtime != 0 && c.now < e.dtime && c.cpmwait > 0
  }

  function Serve(e: Entry, c: Call): (Entry, Verdict) {
    if Barred(e, c) then (e, Waiting)
    else
      var times := Bump(e.times, Tick(c.now));
      if Total(times, Tick(c.now), CHTSIZE) * 60 / (CHTSIZE * CHTGRAN) > c.maxcpm
      then (e.(times := times, dtime := if c.cpmwait > 0 then c.now + c.cpmwait else 0), Exceeded)
      else (e.(times := times, dtime := 0), Pass)
  }

  ghost function Step(s: seq<Entry>, c: Call): (seq<Entry>, Verdict) {
    match GetNode(s, c.key, c.now, c.room)
    case NoPlace => (s, Raised)
    case Placed(rest, node) =>
      var (e, v) := Serve(node, c);
      (rest + [e], v)
  }

  // ---- the list ------------------------------------------------------------------------------

  ghost predicate DistinctKeys(s: seq<Entry>) {
    forall i, j :: 0 <= i < j < |s| ==> s[i].key != s[j].key
  }

  /** In order of last use, none later than `now`. */
  ghost predicate InOrder(s: seq<Entry>, now: nat) {
    && (forall i, j :: 0 <= i < j < |s| ==> s[i].ltime <= s[j].ltime)
    && forall i :: 0 <= i < |s| ==> s[i].ltime <= now
  }

  lemma FindIs(s: seq<Entry>, e: Entry)
    requires DistinctKeys(s) && e in s
    ensures Known(s, e.key) && s[Find(s, e.key)] == e
  {
  }

  /** Taking the record off leaves the others in order and the key free. */
  lemma GetNodeSplits(s: seq<Entry>, k: Key, now: nat, room: bool, before: nat)
    requires DistinctKeys(s) && InOrder(s, before) && before <= now
    requires GetNode(s, k, now, room).Placed?
    ensures var p := GetNode(s, k, now, room);
            && DistinctKeys(p.rest) && InOrder(p.rest, now) && (forall e :: e in p.rest ==> e.key != k)
            && p.node.key == k && p.node.ltime == now
  {
    hide Recyclable;
    var i := Find(s, k);
    var rest := GetNode(s, k, now, room).rest;
    if i < |s| {
      assert forall j :: 0 <= j < |rest| ==> rest[j] == s[if j < i then j else j + 1];
    } else if s != [] && Recyclable(s[0], now) {
      assert forall j :: 0 <= j < |rest| ==> rest[j] == s[j + 1];
    }
  }

  lemma AppendKeepsOrder(rest: seq<Entry>, e: Entry, now: nat)
    requires DistinctKeys(rest) && InOrder(rest, now) && e.ltime == now && forall d :: d in rest ==> d.key != e.key
    ensures DistinctKeys(rest + [e]) && InOrder(rest + [e], now)
  {
  }

  /** The call `c` on the list `s` is answered `v` and leaves `t`. */
  ghost predicate Steps(s: seq<Entry>, c: Call, t: seq<Entry>, v: Verdict) {
    Step(s, c) == (t, v)
  }

  lemma StepKeepsOrder(s: seq<Entry>, c: Call, t: seq<Entry>, v: Verdict, before: nat)
    requires Steps(s, c, t, v) && DistinctKeys(s) && InOrder(s, before) && before <= c.now
    ensures DistinctKeys(t) && InOrder(t, c.now)
  {
    if GetNode(s, c.key, c.now, c.room).Placed? {
      GetNodeSplits(s, c.key, c.now, c.room, before);
      var p := GetNode(s, c.key, c.now, c.room);
      AppendKeepsOrder(p.rest, Serve(p.node, c).0, c.now);
    }
  }

  /** A record other than the caller's stays as it was, unless the caller is unknown and takes over
      the front record, which is then out of quarantine. */
  lemma OtherHost(s: seq<Entry>, c: Call, t: seq<Entry>, v: Verdict, e: Entry)
    requires Steps(s, c, t, v) && DistinctKeys(s) && e.key != c.key
    ensures e in t ==> e in s
    ensures e in s ==> e in t || (!Known(s, c.key) && e == s[0] && Recyclable(e, c.now))
  {
    var i := Find(s, c.key);
    if i < |s| {
      assert t[..|t| - 1] == s[..i] + s[i + 1..];
    }
    if e in s {
      var j :| 0 <= j < |s| && s[j] == e;
      if i < |s| {
        assert t[if j < i then j else j - 1] == e;
      } else if s[0] != e || !Recyclable(e, c.now) {
        if s != [] && Recyclable(s[0], c.now) { assert t[j - 1] == e; } else if c.room { assert t[j] == e; }
      }
    }
  }

  /** The record the call is served from. */
  ghost function Served(s: seq<Entry>, c: Call): Entry
    requires GetNode(s, c.key, c.now, c.room).Placed?
  {
    GetNode(s, c.key, c.now, c.room).node
  }

  /** The host has the record `e`. */
  ghost predicate Holds(s: seq<Entry>, e: Entry) {
    Known(s, e.key) && s[Find(s, e.key)] == e
  }

  lemma KnownIsPlaced(s: seq<Entry>, c: Call, t: seq<Entry>, v: Verdict)
    requires Steps(s, c, t, v) && Known(t, c.key)
    ensures GetNode(s, c.key, c.now, c.room).Placed?
  {
  }

  /** The record that served the call is the one found under its key afterwards. */
  lemma StepServes(s: seq<Entry>, c: Call, t: seq<Entry>, v: Verdict, before: nat)
    requires Steps(s, c, t, v) && DistinctKeys(s) && InOrder(s, before) && before <= c.now
    requires GetNode(s, c.key, c.now, c.room).Placed?
    ensures var (e, w) := Serve(Served(s, c), c);
            w == v && e.key == c.key && Holds(t, e)
  {
    StepKeepsOrder(s, c, t, v, before);
    GetNodeSplits(s, c.key, c.now, c.room, before);
    FindIs(t, Serve(Served(s, c), c).0);
  }

  // ---- quarantine, one call at a time --------------------------------------------------------

  /** Host `k` has a record barred until `until`. */
  ghost predicate InQuarantine(s: seq<Entry>, k: Key, until: nat) {
    Known(s, k) && s[Find(s, k)].dtime == until
  }

  /** A call over the limit of a service with a wait puts its host in quarantine for that wait. */
  lemma QuarantineStarts(s: seq<Entry>, c: Call, t: seq<Entry>, before: nat, until: nat)
    requires Steps(s, c, t, Exceeded) && DistinctKeys(s) && InOrder(s, before) && before <= c.now < until
    ensures InQuarantine(t, c.key, until) <==> c.cpmwait > 0 && until == c.now + c.cpmwait
  {
    StepServes(s, c, t, Exceeded, before);
  }

  lemma QuarantineContinues(s: seq<Entry>, c: Call, t: seq<Entry>, v: Verdict, before: nat, k: Key, until: nat)
    requires Steps(s, c, t, v) && DistinctKeys(s) && InOrder(s, before) && before <= c.now
    requires InQuarantine(s, k, until) && c.now < until && (c.key == k ==> c.cpmwait > 0)
    ensures InQuarantine(t, k, until) && (c.key == k ==> v.Waiting?)
  {
    if c.key == k {
      StepServes(s, c, t, v, before);
    } else {
      StepKeepsOrder(s, c, t, v, before);
      OtherHost(s, c, t, v, s[Find(s, k)]);
      FindIs(t, s[Find(s, k)]);
    }
  }

  /** Only a call over the limit puts a host in quarantine. */
  lemma QuarantineWasThere(s: seq<Entry>, c: Call, t: seq<Entry>, v: Verdict, before: nat, k: Key, until: nat)
    requires Steps(s, c, t, v) && DistinctKeys(s) && InOrder(s, before) && before <= c.now
    requires InQuarantine(t, k, until) && c.now < until && !(c.key == k && v.Exceeded?)
    ensures InQuarantine(s, k, until)
  {
    if c.key == k {
      KnownIsPlaced(s, c, t, v);
      StepServes(s, c, t, v, before);
    } else {
      OtherHost(s, c, t, v, t[Find(t, k)]);
      FindIs(s, t[Find(t, k)]);
    }
  }

  // ---- the ring counts the last six ticks ----------------------------------------------------

  /** How many elements of `h` lie from `lo` to `hi`. */
  function Within(h: seq<nat>, lo: int, hi: int): nat {
    if h == [] then 0
    else Within(h[..|h| - 1], lo, hi) + if lo <= h[|h| - 1] <= hi then 1 else 0
  }

  /** Slot `j` holds the number of calls at the latest tick of its residue class. */
  ghost predicate SlotTracks(c: CTime, j: int, h: seq<nat>) {
    && (c == NEVER || c.ticks % CHTSIZE == j)
    && forall t: nat :: t % CHTSIZE == j && t >= c.ticks ==> Within(h, t, t) == if t == c.ticks then c.count else 0
  }

  /** The ring holds the history `h` of ticks, none of them after `last`. */
  ghost predicate Tracks(times: Ring, h: seq<nat>, last: nat) {
    && (forall j :: 0 <= j < CHTSIZE ==> SlotTracks(times[j], j, h))
    && forall j :: 0 <= j < CHTSIZE ==> times[j].ticks <= last
  }

  lemma UnusedTracks(last: nat)
    ensures Tracks(UNUSED, [], last)
  {
  }

  lemma BumpTracks(times: Ring, h: seq<nat>, last: nat, t: nat)
    requires Tracks(times, h, last) && last <= t
    ensures Tracks(Bump(times, t), h + [t], t)
  {
    var now := Bump(times, t);
    assert (h + [t])[..|h|] == h;
    forall j | 0 <= j < CHTSIZE ensures SlotTracks(now[j], j, h + [t]) {
      assert SlotTracks(times[j], j, h);
    }
  }

  lemma TotalIsSix(times: Ring, t: nat)
    ensures Total(times, t, CHTSIZE) == Share(times, t, 0) + Share(times, t, 1) + Share(times, t, 2)
                                      + Share(times, t, 3) + Share(times, t, 4) + Share(times, t, 5)
  {
    assert Total(times, t, 1) == Share(times, t, 0);
    assert Total(times, t, 2) == Total(times, t, 1) + Share(times, t, 1);
    assert Total(times, t, 4) == Total(times, t, 2) + Share(times, t, 2) + Share(times, t, 3);
  }

  /** The tick of the window ending at `t` that slot `j` is for; `r` is the slot of `t` itself. */
  function TickOf(t: nat, r: nat, j: nat): int {
    if j <= r then t - r + j else t - r + j - CHTSIZE
  }

  /** Each slot contributes the calls of exactly its tick in the window. */
  lemma ShareOfTick(times: Ring, h: seq<nat>, t: nat, j: nat)
    requires Tracks(times, h, t) && times[t % CHTSIZE].ticks == t
    requires CHTSIZE <= t < UINT && j < CHTSIZE
    ensures Share(times, t, j) == At(h, TickOf(t, t % CHTSIZE, j))
  {
    var u := TickOf(t, t % CHTSIZE, j);
    assert t - 5 <= u <= t && u % CHTSIZE == j;
    assert SlotTracks(times[j], j, h);
    assert (t - CHTSIZE) % UINT == t - CHTSIZE;
  }

  function At(h: seq<nat>, u: int): nat {
    Within(h, u, u)
  }

  lemma {:induction false} WithinSplits(h: seq<nat>, t: int)
    ensures Within(h, t - 5, t) == At(h, t) + At(h, t - 1) + At(h, t - 2) + At(h, t - 3) + At(h, t - 4) + At(h, t - 5)
  {
    if h != [] { WithinSplits(h[..|h| - 1], t); }
  }

  lemma WindowBySlots(h: seq<nat>, t: nat, r: nat)
    requires r < CHTSIZE
    ensures Within(h, t - 5, t) == At(h, TickOf(t, r, 0)) + At(h, TickOf(t, r, 1)) + At(h, TickOf(t, r, 2))
                                 + At(h, TickOf(t, r, 3)) + At(h, TickOf(t, r, 4)) + At(h, TickOf(t, r, 5))
  {
    WithinSplits(h, t);
    if r == 0 {} else if r == 1 {} else if r == 2 {} else if r == 3 {} else if r == 4 {} else {}
  }

  /** The sum over the six slots is the number of calls in the last six ticks of the history. */
  lemma RingCountsWindow(times: Ring, h: seq<nat>, t: nat)
    requires Tracks(times, h, t) && times[t % CHTSIZE].ticks == t
    requires CHTSIZE <= t < UINT
    ensures Total(times, t, CHTSIZE) == Within(h, t - 5, t)
  {
    TotalIsSix(times, t);
    WindowBySlots(h, t, t % CHTSIZE);
    ShareOfTick(times, h, t, 0);
    ShareOfTick(times, h, t, 1);
    ShareOfTick(times, h, t, 2);
    ShareOfTick(times, h, t, 3);
    ShareOfTick(times, h, t, 4);
    ShareOfTick(times, h, t, 5);
  }

  /** What a call should be told after the history `h` of its host. */
  function Judge(h: seq<nat>, c: Call): Verdict {
    if Within(h + [Tick(c.now)], Tick(c.now) - 5, Tick(c.now)) > c.maxcpm then Exceeded else Pass
  }

  /** Serving a call that is not barred compares the calls of the last six ticks with the limit. */
  lemma ServeIsExact(e: Entry, c: Call, h: seq<nat>)
    requires Tracks(e.times, h, Tick(c.now)) && c.now >= 60 && c.now / CHTGRAN < UINT
    ensures Serve(e, c).1 == if Barred(e, c) then Waiting else Judge(h, c)
  {
    var t := Tick(c.now);
    BumpTracks(e.times, h, t, t);
    assert c.now / CHTGRAN >= 6;
    RingCountsWindow(Bump(e.times, t), h + [t], t);
  }
}
