/** Log rolling: when the next file is due, and what a consumer does over a run of checks. */
module LogRoll {
  import opened Calendar

  const DAY := 86400
  const UINT := 0x1_0000_0000

  /** Times at which a file is due: midnight, and every period after it within the day. */
  ghost predicate IsBoundary(t: int, period: nat) {
    t % DAY == 0 || (period > 0 && t % DAY % period == 0)
  }

  /** In calendar terms: a file is due at midnight, and whenever a number of periods have passed since. */
  lemma BoundaryIsOnTheClock(t: nat, period: nat)
    ensures var c := Clock(GmTime(t));
            IsBoundary(t, period) <==> c == 0 || (period > 0 && c % period == 0)
    ensures Clock(GmTime(t)) == 0 <==> GmTime(t).hour == 0 && GmTime(t).min == 0 && GmTime(t).sec == 0
  {
    var tm := GmTime(t);
    assert t == Day(tm) * 86400 + Clock(tm) && 0 <= Clock(tm) < 86400;
  }

  /** The least boundary after `now`. */
  ghost predicate IsNextBoundary(r: int, now: int, period: nat) {
    now < r && IsBoundary(r, period) && forall t :: now < t < r ==> !IsBoundary(t, period)
  }

  lemma NextBoundaryIsUnique(r: int, q: int, now: int, period: nat)
    requires IsNextBoundary(r, now, period) && IsNextBoundary(q, now, period)
    ensures r == q
  {
  }

  lemma MultipleOf(i: nat, period: nat)
    requires period > 0
    ensures i * period % period == 0
  {
    DivIs(i * period, period, i, 0);
  }

  lemma DivIs(x: int, k: int, q: int, r: int)
    requires k > 0 && x == q * k + r && 0 <= r < k
    ensures x / k == q && x % k == r
  {
    var d := x / k - q;
    assert d * k == r - x % k;
    assert -k < d * k < k;
    Small(d, k);
  }

  lemma Small(d: int, k: int)
    requires k > 0 && -k < d * k < k
    ensures d == 0
  {
  }

  /** No multiple of the period strictly between one multiple and the next. */
  lemma NothingBetween(o: nat, i: nat, period: nat)
    requires period > 0 && i * period < o < (i + 1) * period
    ensures o % period != 0
  {
    assert (i + 1) * period == i * period + period;
    DivIs(o, period, i, o - i * period);
  }

  lemma InDay(midnight: nat, o: int)
    requires midnight % DAY == 0 && 0 <= o < DAY
    ensures (midnight + o) % DAY == o
  {
  }

  /** The boundary after `now`, worked out at once. */
  function NextBoundary(now: nat, period: nat): nat {
    var midnight := now - now % DAY;
    if period == 0 || (now % DAY / period + 1) * period >= DAY then midnight + DAY
    else midnight + (now % DAY / period + 1) * period
  }

  /** It is the least one, and the only one that is. */
  lemma NextBoundaryIsNext(now: nat, period: nat)
    ensures IsNextBoundary(NextBoundary(now, period), now, period)
  {
    var midnight, o := now - now % DAY, now % DAY;
    if period > 0 {
      var i := o / period;
      assert o == i * period + o % period;
      assert (i + 1) * period == i * period + period;
      NextInDay(midnight, o, i, (i + 1) * period, period);
    } else {
      forall t | now < t < midnight + DAY ensures !IsBoundary(t, period) {
        InDay(midnight, t - midnight);
      }
    }
  }

  /** When `i` periods of the day have passed, the next boundary is the end of the one that runs, or the
      end of the day. */
  lemma NextInDay(midnight: nat, o: nat, i: nat, offset: nat, period: nat)
    requires period > 0 && midnight % DAY == 0 && o < DAY
    requires i * period <= o < offset == (i + 1) * period
    ensures IsNextBoundary(midnight + if offset >= DAY then DAY else offset, midnight + o, period)
  {
    if offset < DAY {
      InDay(midnight, offset);
      MultipleOf(i + 1, period);
    }
    forall t | midnight + o < t < midnight + offset && t < midnight + DAY ensures !IsBoundary(t, period) {
      InDay(midnight, t - midnight);
      NothingBetween(t - midnight, i, period);
    }
  }

  lemma TheNextBoundary(r: nat, now: nat, period: nat)
    requires IsNextBoundary(r, now, period)
    ensures r == NextBoundary(now, period)
  {
    NextBoundaryIsNext(now, period);
    NextBoundaryIsUnique(r, NextBoundary(now, period), now, period);
  }

  /** Moving on to a time before the boundary does not change which boundary is next. */
  lemma SameBoundary(now: nat, later: nat, period: nat)
    requires now <= later < NextBoundary(now, period)
    ensures NextBoundary(later, period) == NextBoundary(now, period)
  {
    NextBoundaryIsNext(now, period);
    NextBoundaryIsNext(later, period);
    NextBoundaryIsUnique(NextBoundary(now, period), NextBoundary(later, period), later, period);
  }

  /** A period after midnight at a time, up to the end of the day. */
  method RollTime(now: nat, period: nat) returns (r: nat)
    ensures IsNextBoundary(r, now, period)
  {
    var cursor := now - now % DAY;
    ghost var midnight := cursor;
    var tomorrow := cursor + DAY;
    assert midnight % DAY == 0;
    if period != 0 {
      ghost var i, passed := 0, 0;
      cursor := cursor + period;
      while cursor <= now
        invariant cursor == midnight + passed + period && midnight + passed <= now
        invariant passed == i * period
        decreases now - cursor
      {
        assert (i + 1) * period == i * period + period;
        passed := passed + period;
        cursor := cursor + period;
        i := i + 1;
      }
      assert (i + 1) * period == i * period + period;
      NextInDay(midnight, now - midnight, i, cursor - midnight, period);
      if cursor < tomorrow {
        return cursor;
      }
    } else {
      forall t | now < t < tomorrow ensures !IsBoundary(t, period) {
        InDay(midnight, t - midnight);
      }
    }
    return tomorrow;
  }

  // ---- runs of rolls -------------------------------------------------------------------------

  /** When the next roll is due, and the time stamps of the files opened so far. */
  datatype Log = Log(due: nat, files: seq<nat>)

  function Start(now: nat, period: nat): Log {
    Log(NextBoundary(now, period), [now])
  }

  /** One roll: the new file is stamped with the time it was due, or with the present when that comes
      first. */
  function Rolled(l: Log, now: nat, period: nat): Log {
    var stamp := if now > l.due then l.due else now;
    Log(NextBoundary(stamp, period), l.files + [stamp])
  }

  function RollAll(start: nat, nows: seq<nat>, period: nat): Log {
    if nows == [] then Start(start, period)
    else Rolled(RollAll(start, nows[..|nows| - 1], period), nows[|nows| - 1], period)
  }

  /** How many of the rolls came when one was due. */
  function Overdue(start: nat, nows: seq<nat>, period: nat): nat {
    if nows == [] then 0
    else
      var pre := nows[..|nows| - 1];
      Overdue(start, pre, period) + if nows[|nows| - 1] >= RollAll(start, pre, period).due then 1 else 0
  }

  /** The boundary that follows `now` after `k` others. */
  function NthBoundary(now: nat, k: nat, period: nat): nat {
    if k == 0 then NextBoundary(now, period) else NextBoundary(NthBoundary(now, k - 1, period), period)
  }

  ghost predicate ClockRuns(start: nat, nows: seq<nat>) {
    && (forall i :: 0 <= i < |nows| ==> start <= nows[i])
    && forall i, j :: 0 <= i < j < |nows| ==> nows[i] <= nows[j]
  }

  /** Over every run of rolls: the next roll is due at the least boundary after the last file's stamp;
      early rolls leave it where it was, and each overdue one advances it by exactly one boundary. */
  lemma {:induction false} RollsAdvanceByBoundaries(start: nat, nows: seq<nat>, period: nat)
    requires ClockRuns(start, nows)
    ensures var l := RollAll(start, nows, period);
            && l.files != [] && l.due == NextBoundary(l.files[|l.files| - 1], period)
            && start <= l.files[|l.files| - 1] <= (if nows == [] then start else nows[|nows| - 1])
            && l.due == NthBoundary(start, Overdue(start, nows, period), period)
  {
    if nows != [] {
      var pre, now := nows[..|nows| - 1], nows[|nows| - 1];
      RollsAdvanceByBoundaries(start, pre, period);
      var l := RollAll(start, pre, period);
      var last := l.files[|l.files| - 1];
      if now < l.due {
        SameBoundary(last, now, period);
      } else {
        NextBoundaryIsNext(last, period);
      }
    }
  }

  /** The files are stamped in order. */
  lemma {:induction false} FilesAreInOrder(start: nat, nows: seq<nat>, period: nat)
    requires ClockRuns(start, nows)
    ensures var f := RollAll(start, nows, period).files;
            forall i, j :: 0 <= i < j < |f| ==> f[i] <= f[j]
  {
    if nows != [] {
      var pre := nows[..|nows| - 1];
      FilesAreInOrder(start, pre, period);
      RollsAdvanceByBoundaries(start, pre, period);
      var l := RollAll(start, pre, period);
      NextBoundaryIsNext(l.files[|l.files| - 1], period);
    }
  }

  // ---- the consumer --------------------------------------------------------------------------

  const BLOCKHINT := 60
  const INTERVAL := 32

  /** A file: the items counted when it was opened, and by now, and the bytes that it had and has. */
  datatype File = File(opening: nat, items: nat, existed: nat, bytes: nat)

  /** The items appended to files, and their bytes. */
  ghost function Appended(files: seq<File>): (int, int) {
    if files == [] then (0, 0)
    else
      var (items, bytes), f := Appended(files[..|files| - 1]), files[|files| - 1];
      (items + f.items - f.opening, bytes + f.bytes - f.existed)
  }

  ghost function Total(items: seq<nat>): nat {
    if items == [] then 0 else Total(items[..|items| - 1]) + items[|items| - 1]
  }

  /** It has passed a limit on items, or what was there when it was opened, by less than `n`. */
  predicate NotFarBeyond(f: File, limit: nat, n: nat) {
    f.items < (if f.opening < limit then limit else f.opening + 1) + n
  }

  class Consumer {
    const period: nat
    const sizeLimit: nat
    const lineLimit: nat
    var rollTime: nat
    var size: nat
    var blocks: nat
    ghost const start: nat
    ghost var nows: seq<nat>
    ghost var files: seq<nat>
    ghost var opening: nat
    ghost var existed: nat
    ghost var closed: seq<File>

    ghost function State(): Log
      reads this
    {
      Log(rollTime, files)
    }

    /** All files, the open one last. */
    ghost function Files(): seq<File>
      reads this
    {
      closed + [File(opening, blocks, existed, size)]
    }

    /** A roll is called for. */
    ghost predicate Calls(now: nat)
      reads this
    {
      || now >= rollTime
      || (sizeLimit > 0 && size % 4294967296 >= sizeLimit)
      || (lineLimit > 0 && blocks % 4294967296 >= lineLimit)
    }

    /** The state is that of a run of rolls, at the times `nows`. */
    ghost predicate OnRun()
      reads this
    {
      State() == RollAll(start, nows, period)
    }

    /** No file closed so far has more than one interval of items beyond the limit on items. */
    ghost predicate Bounded()
      reads this
    {
      lineLimit > 0 ==> forall i :: 0 <= i < |closed| ==> NotFarBeyond(closed[i], lineLimit, 32)
    }

    /** The open file has at most `n` items that no check has seen. */
    ghost predicate Unchecked(n: nat)
      reads this
    {
      lineLimit > 0 ==> NotFarBeyond(File(opening, blocks, existed, size), lineLimit, n)
    }

    /** The counts of the open file fit the 32 bits through which they are read. */
    ghost predicate InRange()
      reads this
    {
      lineLimit + INTERVAL < UINT && opening + INTERVAL < UINT
    }

    /** Start logging at `now`; the file may already hold `existing` bytes. */
    constructor (now: nat, period: nat, sizeLimit: nat, lineLimit: nat, existing: nat)
      ensures this.period == period && this.sizeLimit == sizeLimit && this.lineLimit == lineLimit
      ensures State() == Start(now, period) && size == existing && opening == existing / BLOCKHINT
      ensures OnRun() && Bounded() && Unchecked(0) && Appended(Files()) == (0, 0)
    {
      this.period, this.sizeLimit, this.lineLimit := period, sizeLimit, lineLimit;
      size, blocks := existing, existing / BLOCKHINT;
      files, start, nows, closed := [now], now, [], [];
      opening, existed := existing / BLOCKHINT, existing;
      new;
      rollTime := RollTime(now, period);
      TheNextBoundary(rollTime, now, period);
    }

    /** A roll is called for when one is due, or the file has reached a limit that is set; sizes are read
        through 32 bits. */
    method Check(now: nat) returns (roll: bool)
      ensures roll <==> Calls(now)
    {
      if now >= rollTime {
        return true;
      }
      if sizeLimit != 0 && sizeLimit <= size % UINT {
        return true;
      }
      if lineLimit != 0 && lineLimit <= blocks % UINT {
        return true;
      }
      return false;
    }

    method Roll(now: nat, existing: nat)
      modifies this
      ensures State() == Rolled(old(State()), now, period) && nows == old(nows) + [now]
      ensures old(OnRun()) ==> OnRun()
      ensures size == existed == existing && blocks == opening == existing / BLOCKHINT
      ensures closed == old(Files()) && Appended(Files()) == old(Appended(Files()))
    {
      assert (nows + [now])[..|nows|] == nows;
      var timestamp := if now > rollTime then rollTime else now;
      closed := Files();
      size, blocks := existing, existing / BLOCKHINT;
      opening, existed := blocks, size;
      files, nows := files + [timestamp], nows + [now];
      rollTime := RollTime(timestamp, period);
      TheNextBoundary(rollTime, timestamp, period);
    }

    /** Append one item to the file. */
    method Push(len: nat)
      modifies this`size, this`blocks
      ensures size == old(size) + len && blocks == old(blocks) + 1
      ensures Appended(Files()).0 == old(Appended(Files()).0) + 1 && Appended(Files()).1 == old(Appended(Files()).1) + len
    {
      size, blocks := size + len, blocks + 1;
    }

    /** A check, and a roll if it calls for one.  The open file has then no items beyond the limit but those
        it was opened with. */
    method CheckAndRoll(now: nat, existing: nat)
      requires OnRun() && Bounded() && Unchecked(INTERVAL) && InRange() && existing / BLOCKHINT + INTERVAL < UINT
      modifies this
      ensures OnRun() && Bounded() && Unchecked(0) && InRange() && Appended(Files()) == old(Appended(Files()))
      ensures if old(Calls(now)) then nows == old(nows) + [now] && closed == old(Files())
              else nows == old(nows) && Files() == old(Files()) && State() == old(State())
      ensures Calls(now) ==> nows == old(nows) + [now]
    {
      var roll := Check(now);
      if roll {
        Roll(now, existing);
      }
    }

    /** `consumer_drain`: append the queued items, with a check after every 32 of them and one at the end.
        `clock` and `existing` give the time and the size of the next file at each check.  However the items
        arrive, each is appended to one file, no file ever passes the limit on items, or what it was opened with, by
        more than an interval, and the rolls make up a run.  Unless the last check has just rolled, none is called
        for at the end. */
    method Drain(items: seq<nat>, clock: nat -> nat, existing: nat -> nat)
      requires OnRun() && Bounded() && Unchecked(0) && InRange()
      requires forall i :: existing(i) / BLOCKHINT + INTERVAL < UINT
      modifies this
      ensures OnRun() && Bounded() && Unchecked(0) && InRange()
      ensures Appended(Files()) == (old(Appended(Files())).0 + |items|, old(Appended(Files())).1 + Total(items))
      ensures Calls(clock(|items|)) ==> nows != [] && nows[|nows| - 1] == clock(|items|)
    {
      hide RollAll, Appended;
      ghost var was := Appended(Files());
      for block := 0 to |items|
        invariant OnRun() && Bounded() && Unchecked(block % INTERVAL) && InRange()
        invariant Appended(Files()) == (was.0 + block, was.1 + Total(items[..block]))
      {
        assert items[..block + 1][..block] == items[..block];
        Push(items[block]);
        if (block + 1) % INTERVAL == 0 {
          CheckAndRoll(clock(block), existing(block));
        }
      }
      assert items[..|items|] == items;
      CheckAndRoll(clock(|items|), existing(|items|));
    }
  }
}
