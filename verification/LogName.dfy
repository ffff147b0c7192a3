/** Names of log files: a time stamp appended to a base name, and reading it back. */
module LogName {
  import opened Basics
  import opened Calendar

  // ---- digits --------------------------------------------------------------------------------

  function Digit(d: nat): char
    requires d < 10
  {
    ('0' as int + d) as char
  }

  /** Decimal digits, padded with zeros to at least `w` of them. */
  function Dec(n: nat, w: nat): (s: string)
    decreases n + w
  {
    if n == 0 && w == 0 then [] else Dec(n / 10, if w == 0 then 0 else w - 1) + [Digit(n % 10)]
  }

  /** The number a run of digits stands for; -1 when something else is among them. */
  function Value(s: string): (n: int)
    ensures n >= -1
  {
    if s == [] then 0
    else
      var c, v := s[|s| - 1], Value(s[..|s| - 1]);
      if v >= 0 && '0' <= c <= '9' then 10 * v + (c as int - '0' as int) else -1
  }

  lemma {:induction false} DecReads(n: nat, w: nat)
    requires n < Pow10(w)
    ensures |Dec(n, w)| == w && Value(Dec(n, w)) == n
  {
    if w > 0 {
      DecReads(n / 10, w - 1);
      assert Dec(n, w)[..w - 1] == Dec(n / 10, w - 1);
    }
  }

  lemma {:induction false} DecIsDigits(n: nat, w: nat)
    ensures '_' !in Dec(n, w)
    decreases n + w
  {
    if n != 0 || w != 0 { DecIsDigits(n / 10, if w == 0 then 0 else w - 1); }
  }

  lemma {:induction false} DecIsLong(n: nat, w: nat)
    requires n >= Pow10(w)
    ensures |Dec(n, w)| > w
    decreases w
  {
    if w > 0 { DecIsLong(n / 10, w - 1); }
  }

  // ---- names ---------------------------------------------------------------------------------

  function Lower(c: char): char {
    if 'A' <= c <= 'Z' then (c as int + 32) as char else c
  }

  predicate SameText(a: string, b: string) {
    |a| == |b| && forall i :: 0 <= i < |a| ==> Lower(a[i]) == Lower(b[i])
  }

  /** The base name without a trailing ".log". */
  function Stem(base: string): string {
    if |base| > 4 && SameText(base[|base| - 4..], ".log") then base[..|base| - 4] else base
  }

  /** The last four characters are ".log", in letters of either case. */
  predicate EndsInLog(base: string) {
    var n := |base|;
    n >= 4 && base[n - 4] == '.' && (base[n - 3] == 'l' || base[n - 3] == 'L')
    && (base[n - 2] == 'o' || base[n - 2] == 'O') && (base[n - 1] == 'g' || base[n - 1] == 'G')
  }

  /** A base name loses that ending, unless there is nothing else; any other is kept. */
  lemma StemIs(base: string)
    ensures Stem(base) == if EndsInLog(base) && |base| > 4 then base[..|base| - 4] else base
  {
    if |base| > 4 {
      var n := |base|;
      var end := base[n - 4..];
      assert end[0] == base[n - 4] && end[1] == base[n - 3] && end[2] == base[n - 2] && end[3] == base[n - 1];
      assert forall c: char :: Lower(c) == 'l' <==> c == 'l' || c == 'L';
      assert forall c: char :: Lower(c) == 'o' <==> c == 'o' || c == 'O';
      assert forall c: char :: Lower(c) == 'g' <==> c == 'g' || c == 'G';
      assert forall c: char :: Lower(c) == '.' <==> c == '.';
    }
  }

  /** The fields of a stamp: year, month, day, hour, minute, second. */
  datatype Fields = Fields(y: string, m: string, d: string, h: string, n: string, c: string)

  function Assemble(f: Fields): string {
    "_" + (f.y + f.m + f.d) + "_" + (f.h + f.n + f.c) + ".log"
  }

  function FieldsOf(tm: Tm): Fields
    requires Proper(tm)
  {
    Fields(Dec(tm.year + 1900, 4), Dec(tm.mon + 1, 2), Dec(tm.mday, 2), Dec(tm.hour, 2), Dec(tm.min, 2), Dec(tm.sec, 2))
  }

  ghost function GenerateLogName(base: string, now: nat): string {
    Stem(base) + Assemble(FieldsOf(GmTime(now)))
  }

  const SUFFIXLEN := 20

  /** The time that six numbers stand for; -1 when one was not read or is out of range. */
  ghost function Interpret(year: int, mon: int, mday: int, hour: int, min: int, sec: int): int {
    if year < 0 || mon < 0 || mday < 0 || hour < 0 || min < 0 || sec < 0 then -1
    else if year < 1900 || year > 2099 || mon < 1 || mon > 12 || mday < 1 || mday > 31 then -1
    else Seconds(Tm(year - 1900, mon - 1, mday, hour, min, sec))
  }

  /** Read the stamp off the last twenty characters; what follows the seconds is not looked at. */
  ghost function ParseTimestamp(name: string): int {
    if |name| < SUFFIXLEN then -1
    else
      var s := name[|name| - SUFFIXLEN..];
      if s[0] != '_' || s[9] != '_' then -1
      else Interpret(Value(s[1..5]), Value(s[5..7]), Value(s[7..9]), Value(s[10..12]), Value(s[12..14]), Value(s[14..16]))
  }

  // ---- round trip ----------------------------------------------------------------------------

  lemma Powers()
    ensures Pow10(2) == 100 && Pow10(4) == 10000
  {
    assert Pow10(1) == 10 && Pow10(3) == 10 * Pow10(2);
  }

  /** Every field but the year has two digits. */
  predicate Short(f: Fields) {
    |f.m| == |f.d| == |f.h| == |f.n| == |f.c| == 2
  }

  lemma FieldsRead(tm: Tm)
    requires Proper(tm)
    ensures var f := FieldsOf(tm);
            && Short(f)
            && Value(f.m) == tm.mon + 1 && Value(f.d) == tm.mday
            && Value(f.h) == tm.hour && Value(f.n) == tm.min && Value(f.c) == tm.sec
    ensures tm.year + 1900 < 10000 ==> |FieldsOf(tm).y| == 4 && Value(FieldsOf(tm).y) == tm.year + 1900
    ensures tm.year + 1900 >= 10000 ==> |FieldsOf(tm).y| > 4 && '_' !in FieldsOf(tm).y
  {
    hide Dec, Value;
    Powers();
    if tm.year + 1900 < 10000 {
      DecReads(tm.year + 1900, 4);
    } else {
      DecIsLong(tm.year + 1900, 4);
      DecIsDigits(tm.year + 1900, 4);
    }
    DecReads(tm.mon + 1, 2);
    DecReads(tm.mday, 2);
    DecReads(tm.hour, 2);
    DecReads(tm.min, 2);
    DecReads(tm.sec, 2);
  }

  /** Where the fields of a stamp stand. */
  lemma FieldsStand(f: Fields)
    requires Short(f) && |f.y| == 4
    ensures var s := Assemble(f);
            && |s| == SUFFIXLEN && s[0] == '_' && s[9] == '_'
            && s[1..5] == f.y && s[5..7] == f.m && s[7..9] == f.d
            && s[10..12] == f.h && s[12..14] == f.n && s[14..16] == f.c
  {
  }

  /** With a year of four digits the name ends in exactly the twenty characters of the stamp. */
  lemma StampReads(stem: string, f: Fields)
    requires Short(f) && |f.y| == 4
    ensures ParseTimestamp(stem + Assemble(f))
         == Interpret(Value(f.y), Value(f.m), Value(f.d), Value(f.h), Value(f.n), Value(f.c))
  {
    FieldsStand(f);
    var name, s := stem + Assemble(f), Assemble(f);
    assert name[|name| - SUFFIXLEN..] == s;
  }

  /** With a longer year the stamp is longer, and the twenty characters start with a digit. */
  lemma LongStampFails(stem: string, f: Fields)
    requires Short(f) && |f.y| > 4 && '_' !in f.y
    ensures ParseTimestamp(stem + Assemble(f)) == -1
  {
    var s := Assemble(f);
    var name := stem + s;
    assert |s| == 16 + |f.y| && s[|f.y| - 4] == f.y[|f.y| - 5];
    assert name[|name| - SUFFIXLEN] == s[|f.y| - 4];
    assert name[|name| - SUFFIXLEN..][0] != '_';
  }

  /** Reading the name back gives the time exactly when it lies before the year 2100; later names are
      not recognised. */
  lemma RoundTrip(base: string, now: nat)
    ensures ParseTimestamp(GenerateLogName(base, now)) == if now < Y2100 then now else -1
  {
    var tm := GmTime(now);
    YearBounds(now);
    FieldsRead(tm);
    if now < Y10000 {
      StampReads(Stem(base), FieldsOf(tm));
    } else {
      LongStampFails(Stem(base), FieldsOf(tm));
    }
  }

  /** Two digits, the tens first. */
  function Pair(n: nat): string
    requires n < 100
  {
    [('0' as int + n / 10) as char, ('0' as int + n % 10) as char]
  }

  lemma FieldsArePairs(n: nat)
    requires n < 100
    ensures Dec(n, 2) == Pair(n)
  {
    assert Dec(n / 10, 1) == Dec(0, 0) + [Digit(n / 10)];
  }

  lemma YearsArePairs(n: nat)
    requires n < 10000
    ensures Dec(n, 4) == Pair(n / 100) + Pair(n % 100)
  {
    FieldsArePairs(n / 100);
    assert n / 10 / 10 == n / 100 && n / 10 % 10 == n % 100 / 10 && n % 10 == n % 100 % 10;
    assert Dec(n / 10, 3) == Dec(n / 100, 2) + [Digit(n / 10 % 10)];
  }

  /** A stamp is an underscore, the year, month and day, another underscore, the hour, minute and second, and the
      ending. */
  lemma StampIs(tm: Tm)
    requires Proper(tm) && tm.year + 1900 < 10000
    ensures var y := tm.year + 1900;
            Assemble(FieldsOf(tm)) == "_" + Pair(y / 100) + Pair(y % 100) + Pair(tm.mon + 1) + Pair(tm.mday)
                                    + "_" + Pair(tm.hour) + Pair(tm.min) + Pair(tm.sec) + ".log"
  {
    hide Dec, Pair;
    var y := tm.year + 1900;
    YearsArePairs(y);
    FieldsArePairs(tm.mon + 1);
    FieldsArePairs(tm.mday);
    FieldsArePairs(tm.hour);
    FieldsArePairs(tm.min);
    FieldsArePairs(tm.sec);
  }

  // ---- order ---------------------------------------------------------------------------------

  /** Dictionary order, at a given position. */
  ghost predicate LessAt(a: string, b: string, p: nat) {
    p < |a| && p < |b| && a[..p] == b[..p] && a[p] < b[p]
  }

  ghost predicate Sorts(a: string, b: string) {
    exists p :: LessAt(a, b, p)
  }

  lemma SortsInside(x: string, a: string, b: string, y: string, z: string)
    requires Sorts(a, b)
    ensures Sorts(x + a + y, x + b + z)
  {
    var p: nat :| LessAt(a, b, p);
    var l, r := x + a + y, x + b + z;
    assert l[..|x| + p] == x + a[..p] && r[..|x| + p] == x + b[..p];
    assert LessAt(l, r, |x| + p);
  }

  lemma SortsLonger(x: string, y: string, c: char, d: char)
    requires Sorts(x, y)
    ensures Sorts(x + [c], y + [d])
  {
    SortsInside("", x, y, [c], [d]);
    assert "" + x == x && "" + y == y;
  }

  lemma LastSorts(x: string, c: char, d: char)
    requires c < d
    ensures Sorts(x + [c], x + [d])
  {
    assert LessAt(x + [c], x + [d], |x|);
  }

  lemma {:induction false} DecSorts(n: nat, m: nat, w: nat)
    requires n < m < Pow10(w)
    ensures Sorts(Dec(n, w), Dec(m, w))
  {
    if n / 10 < m / 10 {
      DecSorts(n / 10, m / 10, w - 1);
      SortsLonger(Dec(n / 10, w - 1), Dec(m / 10, w - 1), Digit(n % 10), Digit(m % 10));
    } else {
      DecReads(n / 10, w - 1);
      LastSorts(Dec(n / 10, w - 1), Digit(n % 10), Digit(m % 10));
    }
  }

  /** Strings that agree up to `p` sort as their stretches from `p` to `q` do. */
  lemma SortsAt(s: string, t: string, p: nat, q: nat)
    requires p <= q <= |s| && q <= |t| && s[..p] == t[..p] && Sorts(s[p..q], t[p..q])
    ensures Sorts(s, t)
  {
    SortsInside(s[..p], s[p..q], t[p..q], s[q..], t[q..]);
    assert s == s[..p] + s[p..q] + s[q..] && t == t[..p] + t[p..q] + t[q..];
  }

  /** Agreeing further. */
  lemma AgreeOn(s: string, t: string, p: nat, q: nat)
    requires p <= q <= |s| && q <= |t| && s[..p] == t[..p] && s[p..q] == t[p..q]
    ensures s[..q] == t[..q]
  {
    assert s[..q] == s[..p] + s[p..q] && t[..q] == t[..p] + t[p..q];
  }

  /** The first field that differs decides. */
  ghost predicate FieldsSort(f: Fields, g: Fields) {
    if f.y != g.y then Sorts(f.y, g.y)
    else if f.m != g.m then Sorts(f.m, g.m)
    else if f.d != g.d then Sorts(f.d, g.d)
    else if f.h != g.h then Sorts(f.h, g.h)
    else if f.n != g.n then Sorts(f.n, g.n)
    else Sorts(f.c, g.c)
  }

  lemma FieldsDecide(f: Fields, g: Fields)
    requires Short(f) && Short(g) && |f.y| == |g.y| == 4 && FieldsSort(f, g)
    ensures Sorts(Assemble(f), Assemble(g))
  {
    var s, t := Assemble(f), Assemble(g);
    FieldsStand(f);
    FieldsStand(g);
    assert s[..1] == t[..1] && s[9..10] == t[9..10];
    if f.y != g.y {
      SortsAt(s, t, 1, 5);
    } else {
      AgreeOn(s, t, 1, 5);
      if f.m != g.m {
        SortsAt(s, t, 5, 7);
      } else {
        AgreeOn(s, t, 5, 7);
        if f.d != g.d {
          SortsAt(s, t, 7, 9);
        } else {
          AgreeOn(s, t, 7, 9);
          AgreeOn(s, t, 9, 10);
          if f.h != g.h {
            SortsAt(s, t, 10, 12);
          } else {
            AgreeOn(s, t, 10, 12);
            if f.n != g.n { SortsAt(s, t, 12, 14); } else { AgreeOn(s, t, 12, 14); SortsAt(s, t, 14, 16); }
          }
        }
      }
    }
  }

  lemma DecCompares(n: nat, m: nat, w: nat)
    requires n < Pow10(w) && m < Pow10(w)
    ensures n < m ==> Sorts(Dec(n, w), Dec(m, w))
    ensures n != m ==> Dec(n, w) != Dec(m, w)
  {
    DecReads(n, w);
    DecReads(m, w);
    if n < m { DecSorts(n, m, w); }
  }

  lemma EarlierSorts(a: Tm, b: Tm)
    requires Proper(a) && Proper(b) && Earlier(a, b) && a.year + 1900 < 10000 && b.year + 1900 < 10000
    ensures FieldsSort(FieldsOf(a), FieldsOf(b))
  {
    hide Dec, Sorts;
    Powers();
    if a.year != b.year {
      DecCompares(a.year + 1900, b.year + 1900, 4);
    } else if a.mon != b.mon {
      DecCompares(a.mon + 1, b.mon + 1, 2);
    } else if a.mday != b.mday {
      DecCompares(a.mday, b.mday, 2);
    } else if a.hour != b.hour {
      DecCompares(a.hour, b.hour, 2);
    } else if a.min != b.min {
      DecCompares(a.min, b.min, 2);
    } else {
      DecCompares(a.sec, b.sec, 2);
    }
  }

  /** Names made from one base sort as their times do. */
  lemma NamesSortByTime(base: string, t: nat, u: nat)
    requires t < u < Y10000
    ensures Sorts(GenerateLogName(base, t), GenerateLogName(base, u))
  {
    YearBounds(t);
    YearBounds(u);
    GmTimeGrows(t, u);
    var f, g := FieldsOf(GmTime(t)), FieldsOf(GmTime(u));
    FieldsRead(GmTime(t));
    FieldsRead(GmTime(u));
    EarlierSorts(GmTime(t), GmTime(u));
    FieldsDecide(f, g);
    SortsAfter(Stem(base), Assemble(f), Assemble(g));
  }

  lemma SortsAfter(x: string, a: string, b: string)
    requires Sorts(a, b)
    ensures Sorts(x + a, x + b)
  {
    SortsInside(x, a, b, "", "");
    assert x + a + "" == x + a && x + b + "" == x + b;
  }
}
