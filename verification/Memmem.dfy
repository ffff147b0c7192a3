/** Substring search: `memmem` with its rolling-word forms for short needles and the two-way search
    for the rest, all proved to return the leftmost occurrence. */
module Memmem {
  import opened Octets
  import opened Periodicity
  import opened SuffixScan

  /** A null or a non-null result: the offset of the match in the haystack. */
  datatype Pointer = Null | At(offset: nat)

  ghost predicate OccursAt(h: seq<Byte>, n: seq<Byte>, i: nat) {
    i + |n| <= |h| && h[i..i + |n|] == n
  }

  ghost predicate NoneBetween(t: seq<Byte>, n: seq<Byte>, lo: nat, hi: nat) {
    forall i: nat :: lo <= i < hi ==> !OccursAt(t, n, i)
  }

  /** The specification: the leftmost occurrence at or after `from`, or null if there is none. */
  ghost predicate IsFirstOccurrence(h: seq<Byte>, n: seq<Byte>, from: nat, r: Pointer) {
    match r
    case Null => forall i: nat :: from <= i ==> !OccursAt(h, n, i)
    case At(o) => from <= o && OccursAt(h, n, o) && NoneBetween(h, n, from, o)
  }

  lemma FirstOccurrenceIsUnique(h: seq<Byte>, n: seq<Byte>, from: nat, r: Pointer, r': Pointer)
    requires IsFirstOccurrence(h, n, from, r) && IsFirstOccurrence(h, n, from, r')
    ensures r == r'
  {
    if r.At? && r'.At? {
      assert OccursAt(h, n, r.offset) && OccursAt(h, n, r'.offset);
    }
  }

  // ---- needles of two, three and four bytes: one machine word rolls over the haystack ----------

  /** The `w` bytes of `s` from `i` on, as one big-endian number. */
  function Word(s: seq<Byte>, i: nat, w: nat): (v: nat)
    requires i + w <= |s|
  {
    if w == 0 then 0 else Word(s, i, w - 1) * 256 + s[i + w - 1]
  }

  lemma WordBound(s: seq<Byte>, i: nat, w: nat)
    requires i + w <= |s| && 1 <= w <= 4
    ensures w == 1 ==> Word(s, i, w) == s[i]
    ensures w == 2 ==> Word(s, i, w) == (s[i] as int) * 0x100 + s[i + 1] < 0x1_0000
    ensures w == 3 ==> Word(s, i, w) == (s[i] as int) * 0x1_0000 + (s[i + 1] as int) * 0x100 + s[i + 2] < 0x100_0000
    ensures w == 4 ==> Word(s, i, w) == (s[i] as int) * 0x100_0000 + (s[i + 1] as int) * 0x1_0000
                                        + (s[i + 2] as int) * 0x100 + s[i + 3] < 0x1_0000_0000
  {
    if w > 1 {
      WordBound(s, i, w - 1);
    }
  }

  /** Shifting a full word left drops its first byte and makes room for the next one. */
  lemma WordRolls2(s: seq<Byte>, i: nat)
    requires i + 2 < |s|
    ensures Word(s, i + 1, 2) == Word(s, i, 2) * 0x100 % 0x1_0000 + s[i + 2]
  {
    WordBound(s, i, 2);
    WordBound(s, i + 1, 2);
  }

  lemma WordRolls3(s: seq<Byte>, i: nat)
    requires i + 3 < |s|
    ensures Word(s, i + 1, 3) * 0x100 == (Word(s, i, 3) * 0x100 + s[i + 3]) * 0x100 % 0x1_0000_0000
  {
    WordBound(s, i, 3);
    WordBound(s, i + 1, 3);
  }

  lemma WordRolls4(s: seq<Byte>, i: nat)
    requires i + 4 < |s|
    ensures Word(s, i + 1, 4) == Word(s, i, 4) * 0x100 % 0x1_0000_0000 + s[i + 4]
  {
    WordBound(s, i, 4);
    WordBound(s, i + 1, 4);
  }

  lemma WordDigits(a: seq<Byte>, i: nat, b: seq<Byte>, j: nat, w: nat)
    requires i + w <= |a| && j + w <= |b|
    ensures Word(a, i, w) == Word(b, j, w) <==> a[i..i + w] == b[j..j + w]
  {
    if w > 0 {
      WordDigits(a, i, b, j, w - 1);
      var u, v := a[i..i + w], b[j..j + w];
      assert a[i..i + w] == a[i..i + (w - 1)] + [a[i + w - 1]];
      assert b[j..j + w] == b[j..j + (w - 1)] + [b[j + w - 1]];
      if u == v {
        assert u[..w - 1] == v[..w - 1] && u[w - 1] == v[w - 1];
        assert a[i..i + (w - 1)] == u[..w - 1] && b[j..j + (w - 1)] == v[..w - 1];
      }
    }
  }

  /** Words of the same width are equal exactly when their bytes are. */
  lemma WordsEqual(h: seq<Byte>, n: seq<Byte>, i: nat)
    requires i + |n| <= |h|
    ensures Word(h, i, |n|) == Word(n, 0, |n|) <==> OccursAt(h, n, i)
  {
    WordDigits(h, i, n, 0, |n|);
    assert n[0..|n|] == n;
  }

  /** The last window decides. */
  method Verdict(h0: seq<Byte>, n: seq<Byte>, from: nat, i: nat, equal: bool) returns (r: Pointer)
    requires from <= i && i + |n| == |h0| && NoneBetween(h0, n, from, i) && (equal <==> OccursAt(h0, n, i))
    ensures IsFirstOccurrence(h0, n, from, r)
  {
    r := if equal then At(i) else Null;
  }

  /** `hw << 8 | b` in a 16-bit word: the oldest byte falls out of the top. */
  method TwoByte(h0: seq<Byte>, from: nat, n: seq<Byte>) returns (r: Pointer)
    requires |n| == 2 && from + 2 <= |h0|
    ensures IsFirstOccurrence(h0, n, from, r)
  {
    var nw := (n[0] as int) * 0x100 + n[1];
    var hw := (h0[from] as int) * 0x100 + h0[from + 1];
    var h: nat := from + 2;
    WordBound(n, 0, 2);
    WordBound(h0, from, 2);
    while h < |h0|
      invariant from + 2 <= h <= |h0| && hw == Word(h0, h - 2, 2)
      invariant NoneBetween(h0, n, from, h - 2)
    {
      WordsEqual(h0, n, h - 2);
      if hw == nw {
        return At(h - 2);
      }
      WordRolls2(h0, h - 2);
      hw := hw * 0x100 % 0x1_0000 + h0[h];
      h := h + 1;
    }
    WordsEqual(h0, n, h - 2);
    r := Verdict(h0, n, from, h - 2, hw == nw);
  }

  /** `(hw | b) << 8` in a 32-bit word whose low byte stays zero. */
  method ThreeByte(h0: seq<Byte>, from: nat, n: seq<Byte>) returns (r: Pointer)
    requires |n| == 3 && from + 3 <= |h0|
    ensures IsFirstOccurrence(h0, n, from, r)
  {
    var nw := (n[0] as int) * 0x100_0000 + (n[1] as int) * 0x1_0000 + (n[2] as int) * 0x100;
    var hw := (h0[from] as int) * 0x100_0000 + (h0[from + 1] as int) * 0x1_0000 + (h0[from + 2] as int) * 0x100;
    var h: nat := from + 3;
    WordBound(n, 0, 3);
    WordBound(h0, from, 3);
    while h < |h0|
      invariant from + 3 <= h <= |h0| && hw == Word(h0, h - 3, 3) * 0x100
      invariant NoneBetween(h0, n, from, h - 3)
    {
      WordsEqual(h0, n, h - 3);
      if hw == nw {
        return At(h - 3);
      }
      WordRolls3(h0, h - 3);
      hw := (hw + h0[h]) * 0x100 % 0x1_0000_0000;
      h := h + 1;
    }
    WordsEqual(h0, n, h - 3);
    r := Verdict(h0, n, from, h - 3, hw == nw);
  }

  method FourByte(h0: seq<Byte>, from: nat, n: seq<Byte>) returns (r: Pointer)
    requires |n| == 4 && from + 4 <= |h0|
    ensures IsFirstOccurrence(h0, n, from, r)
  {
    var nw := (n[0] as int) * 0x100_0000 + (n[1] as int) * 0x1_0000 + (n[2] as int) * 0x100 + n[3];
    var hw := (h0[from] as int) * 0x100_0000 + (h0[from + 1] as int) * 0x1_0000 + (h0[from + 2] as int) * 0x100 + h0[from + 3];
    var h: nat := from + 4;
    WordBound(n, 0, 4);
    WordBound(h0, from, 4);
    while h < |h0|
      invariant from + 4 <= h <= |h0| && hw == Word(h0, h - 4, 4)
      invariant NoneBetween(h0, n, from, h - 4)
    {
      WordsEqual(h0, n, h - 4);
      if hw == nw {
        return At(h - 4);
      }
      WordRolls4(h0, h - 4);
      hw := hw * 0x100 % 0x1_0000_0000 + h0[h];
      h := h + 1;
    }
    WordsEqual(h0, n, h - 4);
    r := Verdict(h0, n, from, h - 4, hw == nw);
  }

  // ---- the two-way search ----------------------------------------------------------------------

  /** What is known about the needle before the search starts: the cut `c` is critical for the
      smallest period `per`, and `p` is how far an alignment may move after its right part matched
      and its left part did not.  Either `p` is the smallest period (then `mem0` bytes stay matched)
      or no repetition at the cut is shorter than `p` (then nothing is remembered). */
  ghost predicate Prepared(n: seq<Byte>, c: nat, per: nat, p: nat, mem0: nat) {
    && c < |n| && Critical(n, c, per) && 0 < p <= |n|
    && p <= per
    && (mem0 == 0 || (p == per && mem0 == |n| - p))
  }

  /** The alignment at `h` is known to match the needle on `[a..b]`. */
  ghost predicate Matched(t: seq<Byte>, h: nat, n: seq<Byte>, a: nat, b: nat) {
    && h + b <= |t| && b <= |n|
    && forall j :: a <= j < b ==> t[h + j] == n[j]
  }

  lemma OccursLetter(t: seq<Byte>, n: seq<Byte>, i: nat, j: nat)
    requires OccursAt(t, n, i) && j < |n|
    ensures t[i + j] == n[j]
  {
    assert t[i..i + |n|][j] == n[j];
  }

  /** Two alignments `s` apart that agree around the cut make `s` a repetition there. */
  lemma ShiftIsRepetition(t: seq<Byte>, h: nat, n: seq<Byte>, c: nat, k: nat, s: nat)
    requires h + |n| <= |t| && c <= k <= |n| && Matched(t, h, n, c, k)
    requires 0 < s && (c + s <= k || k == |n|)
    requires OccursAt(t, n, h + s)
    ensures LocalPeriod(n, c, s)
  {
    forall j: nat | c - s <= j < c && j + s < |n| ensures Same(n, j, s) {
      OccursLetter(t, n, h + s, j);
      assert t[h + (j + s)] == n[j + s];
    }
  }

  /** A repetition at a critical cut is a multiple of the smallest period, hence a period. */
  lemma RepetitionRepeats(n: seq<int>, c: nat, per: nat, s: nat, j: nat)
    requires Critical(n, c, per) && LocalPeriod(n, c, s) && c + s <= |n| && j + s < |n|
    ensures n[j] == n[j + s]
    decreases s
  {
    var r: nat := s - per;
    assert Same(n, j + r, per);
    if r > 0 {
      forall i: nat | c - r <= i < c && i + r < |n| ensures Same(n, i, r) {
        assert Same(n, i, s) && Same(n, i + r, per);
      }
      RepetitionRepeats(n, c, per, r, j);
    }
  }

  /** Right part: after a mismatch at `k`, the alignment may move by `k - c + 1`. */
  lemma RightMismatch(t: seq<Byte>, h: nat, n: seq<Byte>, c: nat, per: nat, k: nat)
    requires h + |n| <= |t| && Critical(n, c, per) && c <= k < |n|
    requires Matched(t, h, n, c, k) && t[h + k] != n[k]
    ensures NoneBetween(t, n, h, h + (k - c + 1))
  {
    forall i: nat | h <= i < h + (k - c + 1) ensures !OccursAt(t, n, i) {
      if OccursAt(t, n, i) {
        var s: nat := i - h;
        OccursLetter(t, n, i, k - s);
        if s > 0 {
          ShiftIsRepetition(t, h, n, c, k, s);
          RepetitionRepeats(n, c, per, s, k - s);
        }
        assert false;
      }
    }
  }

  /** Left part: after the right part matched, no alignment before `p` can match if this one
      does not. */
  lemma LeftMismatch(t: seq<Byte>, h: nat, n: seq<Byte>, c: nat, per: nat, p: nat, k: nat)
    requires h + |n| <= |t| && Critical(n, c, per) && p <= per && c <= |n|
    requires Matched(t, h, n, c, |n|) && k < |n| && t[h + k] != n[k]
    ensures NoneBetween(t, n, h, h + p)
  {
    forall i: nat | h <= i < h + p ensures !OccursAt(t, n, i) {
      if OccursAt(t, n, i) {
        var s: nat := i - h;
        if s == 0 {
          OccursLetter(t, n, h, k);
        } else {
          ShiftIsRepetition(t, h, n, c, |n|, s);
        }
        assert false;
      }
    }
  }

  /** After moving a periodic needle by its period, all but its last period is already matched. */
  lemma Remember(t: seq<Byte>, h: nat, n: seq<Byte>, c: nat, p: nat)
    requires c < p <= |n| && Period(n, p) && Matched(t, h, n, c, |n|)
    ensures Matched(t, h + p, n, 0, |n| - p)
  {
    forall j | 0 <= j < |n| - p ensures t[(h + p) + j] == n[j] {
      assert Same(n, j, p);
      assert t[h + (p + j)] == n[p + j];
    }
  }

  /** The shift table: `present[b]` says that `b` occurs in the needle, and then `shift[b]` is one
      more than its last index. */
  ghost predicate Table(n: seq<Byte>, present: seq<bool>, shift: seq<nat>, i: nat) {
    && |present| == |shift| == 256 && i <= |n|
    && (forall b: Byte :: present[b] ==> 0 < shift[b] <= i && n[shift[b] - 1] == b)
    && (forall j :: 0 <= j < i ==> present[n[j]] && j < shift[n[j]])
  }

  /** Last byte first: if it sits in the needle `k` places before the end, the next `k - 1`
      alignments fail on it. */
  lemma LastByteShift(t: seq<Byte>, h: nat, n: seq<Byte>, present: seq<bool>, shift: seq<nat>, k: nat)
    requires 0 < |n| && h + |n| <= |t| && Table(n, present, shift, |n|)
    requires k == if present[t[h + |n| - 1]] then |n| - shift[t[h + |n| - 1]] else |n|
    ensures NoneBetween(t, n, h, h + k)
  {
    forall i: nat | h <= i < h + k ensures !OccursAt(t, n, i) {
      if OccursAt(t, n, i) {
        OccursLetter(t, n, i, h + |n| - 1 - i);
        assert false;
      }
    }
  }

  /** With a remembered prefix of a periodic needle, a wrong last byte rules out every alignment
      that starts inside that prefix. */
  lemma MemoryShift(t: seq<Byte>, h: nat, n: seq<Byte>, per: nat, mem: nat)
    requires 0 < |n| && h + |n| <= |t| && Period(n, per) && per <= |n| && mem == |n| - per
    requires Matched(t, h, n, 0, mem) && t[h + |n| - 1] != n[|n| - 1]
    ensures NoneBetween(t, n, h, h + mem)
  {
    forall i: nat | h <= i < h + mem ensures !OccursAt(t, n, i) {
      if OccursAt(t, n, i) {
        var s: nat := i - h;
        assert Same(n, mem - 1 - s, per) && Same(n, mem - 1, per);
        OccursLetter(t, n, i, mem - 1 - s);
        OccursLetter(t, n, i, |n| - 1 - s);
        assert false;
      }
    }
  }

  /** If the part left of the cut does not repeat after `q` letters, where `q` is the smallest
      period of the right part, then the needle has no period as short as its right part. */
  lemma NotPeriodic(n: seq<int>, c: nat, per: nat, q: nat)
    requires c < |n| && Critical(n, c, per) && SmallestPeriodFrom(n, c, q)
    requires exists j :: 0 <= j < c && n[j] != n[j + q]
    ensures per > |n| - c
  {
    if per <= |n| - c {
      forall t | c <= t && t + per < |n| ensures Same(n, t, per) {
      }
      assert PeriodOn(n, c, |n|, per);
      assert q <= per;
      SuffixPeriodIsRepetition(n, c, per, q);
      assert per == q;
      forall j | 0 <= j < c ensures n[j] == n[j + q] {
        assert Same(n, j, per);
      }
    }
  }

  /** When the whole period fits right of the cut, a period of the right part is reflected at the
      cut, so it cannot be shorter. */
  lemma SuffixPeriodIsRepetition(n: seq<int>, c: nat, per: nat, q: nat)
    requires c < |n| && Critical(n, c, per) && 0 < q <= per && c + per <= |n| && PeriodOn(n, c, |n|, q)
    ensures q == per
    decreases per
  {
    var r := Remainder(n, c, per, q, per);
    assert per <= r;
  }

  /** Steps down from `s` to a repetition of length at most `q` at the cut. */
  lemma Remainder(n: seq<int>, c: nat, per: nat, q: nat, s: nat) returns (r: nat)
    requires c < per && c < |n| && 0 < q && 0 < s && c + s <= |n| && PeriodOn(n, c, |n|, q)
    requires LocalPeriod(n, c, s)
    ensures 0 < r <= q && LocalPeriod(n, c, r)
    decreases s
  {
    if s <= q {
      r := s;
    } else {
      var u: nat := s - q;
      forall j: nat | c - u <= j < c && j + u < |n| ensures Same(n, j, u) {
        assert Same(n, j, s);
        assert Same(n, j + u, q);
      }
      r := Remainder(n, c, per, q, u);
    }
  }

  lemma PreparedPeriodic(n: seq<Byte>, c: nat, per: nat, p: nat)
    requires c < |n| && Critical(n, c, per) && SmallestPeriodFrom(n, c, p) && n[..c] == n[p..p + c]
    requires forall q: nat :: Period(n, q) ==> per <= q
    ensures Prepared(n, c, per, p, |n| - p)
  {
    forall t | 0 <= t && t + p < |n| ensures Same(n, t, p) {
      assert t < c ==> n[..c][t] == n[p..p + c][t];
    }
    assert Period(n, p);
    assert PeriodOn(n, c, |n|, per);
  }

  lemma PreparedNonperiodic(n: seq<Byte>, c: nat, per: nat, q: nat, p: nat)
    requires c < |n| && Critical(n, c, per) && SmallestPeriodFrom(n, c, q) && n[..c] != n[q..q + c]
    requires p == (if c - 1 > |n| - c then c - 1 else |n| - c) + 1
    ensures 0 < c && Prepared(n, c, per, p, 0)
  {
    assert exists j :: 0 <= j < c && n[..c][j] != n[q..q + c][j];
    NotPeriodic(n, c, per, q);
  }

  /** Factors the needle: the later of the two maximal suffixes gives the critical cut `ms + 1`, and
      comparing the left part with its shift by the right part's period tells whether the needle is
      periodic. */
  method Factor(n: seq<Byte>) returns (ms: int, p: nat, mem0: nat, ghost per: nat)
    requires |n| > 0
    ensures -1 <= ms && Prepared(n, ms + 1, per, p, mem0)
  {
    var p0;
    ms, p0 := MaximalSuffix(n, false);
    var ip, p1 := MaximalSuffix(n, true);
    if ip + 1 > ms + 1 {
      per := CriticalFactorisation(n, true, ip + 1, ms + 1);
      ms, p := ip, p1;
    } else {
      per := CriticalFactorisation(n, false, ms + 1, ip + 1);
      p := p0;
    }
    if n[..ms + 1] != n[p..p + ms + 1] {
      ghost var q := p;
      mem0 := 0;
      p := (if ms > |n| - ms - 1 then ms else |n| - ms - 1) + 1;
      PreparedNonperiodic(n, ms + 1, per, q, p);
    } else {
      mem0 := |n| - p;
      PreparedPeriodic(n, ms + 1, per, p);
    }
  }

  method FillTable(n: seq<Byte>) returns (byteset: array<bool>, shift: array<nat>)
    ensures fresh(byteset) && fresh(shift) && Table(n, byteset[..], shift[..], |n|)
  {
    byteset := new bool[256](_ => false);
    shift := new nat[256];
    for i := 0 to |n|
      invariant byteset.Length == shift.Length == 256
      invariant Table(n, byteset[..], shift[..], i)
    {
      byteset[n[i]] := true;
      shift[n[i]] := i + 1;
    }
  }

  method CompareRight(t: seq<Byte>, h: nat, n: seq<Byte>, c: nat, mem: nat) returns (k: nat)
    requires h + |n| <= |t| && c <= |n| && Matched(t, h, n, 0, mem)
    ensures c <= k <= |n| && Matched(t, h, n, c, k) && (k < |n| ==> t[h + k] != n[k])
  {
    k := if c > mem then c else mem;
    while k < |n| && n[k] == t[h + k]
      invariant c <= k <= |n| && Matched(t, h, n, c, k)
    {
      k := k + 1;
    }
  }

  method CompareLeft(t: seq<Byte>, h: nat, n: seq<Byte>, c: nat, mem: nat) returns (k: nat)
    requires h + |n| <= |t| && c <= |n| && Matched(t, h, n, c, |n|)
    ensures k <= c && Matched(t, h, n, k, |n|) && (k > mem ==> t[h + k - 1] != n[k - 1])
  {
    k := c;
    while k > mem && n[k - 1] == t[h + k - 1]
      invariant k <= c && Matched(t, h, n, k, |n|)
    {
      k := k - 1;
    }
  }

  /** Checks the last byte of the alignment at `h` and returns how far it lets the search skip. */
  method SkipByLastByte(t: seq<Byte>, h: nat, n: seq<Byte>, byteset: array<bool>, shift: array<nat>,
                        mem: nat, ghost per: nat) returns (k: nat)
    requires 0 < |n| && h + |n| <= |t| && Table(n, byteset[..], shift[..], |n|)
    requires mem == 0 || (Period(n, per) && per <= |n| && mem == |n| - per && Matched(t, h, n, 0, mem))
    ensures k <= |n| && NoneBetween(t, n, h, h + k)
  {
    var l := |n|;
    var last := t[h + l - 1];
    assert last == n[l - 1] ==> byteset[..][n[l - 1]] && l - 1 < shift[..][n[l - 1]];
    if byteset[last] {
      assert byteset[..][last] && shift[..][last] == shift[last];
      k := l - shift[last];
      LastByteShift(t, h, n, byteset[..], shift[..], k);
      if k != 0 && k < mem {
        MemoryShift(t, h, n, per, mem);
        k := mem;
      }
    } else {
      LastByteShift(t, h, n, byteset[..], shift[..], l);
      k := l;
    }
  }

  /** Compares the needle with the alignment at `h`: right part first, then the left part down to
      what is remembered.  Without a match, `k` is how far to advance, and `left` says that the
      mismatch came on the left. */
  method CompareParts(t: seq<Byte>, h: nat, n: seq<Byte>, ms: int, p: nat, mem: nat, ghost per: nat)
    returns (found: bool, k: nat, left: bool)
    requires 0 < |n| && h + |n| <= |t| && Matched(t, h, n, 0, mem)
    requires -1 <= ms && ms + 1 < |n| && Critical(n, ms + 1, per) && 0 < p <= per && p <= |n|
    ensures found ==> OccursAt(t, n, h)
    ensures !found ==> 0 < k <= |n| && NoneBetween(t, n, h, h + k)
    ensures !found && left ==> k == p && Matched(t, h, n, ms + 1, |n|)
  {
    var l := |n|;
    found, left := false, false;
    k := CompareRight(t, h, n, ms + 1, mem);
    if k < l {
      RightMismatch(t, h, n, ms + 1, per, k);
      k := k - ms;
      return;
    }
    k := CompareLeft(t, h, n, ms + 1, mem);
    if k <= mem {
      assert t[h..h + l] == n;
      found := true;
    } else {
      LeftMismatch(t, h, n, ms + 1, per, p, k - 1);
      k, left := p, true;
    }
  }

  method TwoWay(t: seq<Byte>, from: nat, n: seq<Byte>) returns (r: Pointer)
    requires |n| > 0 && from <= |t|
    ensures IsFirstOccurrence(t, n, from, r)
  {
    var byteset, shift := FillTable(n);
    var ms, p, mem0, per := Factor(n);
    var l, h, mem := |n|, from, 0;
    while true
      invariant from <= h <= |t| && NoneBetween(t, n, from, h)
      invariant (mem == 0 || mem == mem0) && Matched(t, h, n, 0, mem)
      invariant Table(n, byteset[..], shift[..], l)
      decreases |t| - h
    {
      if |t| - h < l {
        return Null;
      }
      var k := SkipByLastByte(t, h, n, byteset, shift, mem, per);
      if k != 0 {
        h := h + k;
        mem := 0;
        continue;
      }
      var found, left;
      found, k, left := CompareParts(t, h, n, ms, p, mem, per);
      if found {
        return At(h);
      }
      if left && mem0 > 0 {
        Remember(t, h, n, ms + 1, p);
      }
      h := h + k;
      mem := if left then mem0 else 0;
    }
  }

  /** `memchr`: the leftmost place of one byte. */
  method MemChr(h: seq<Byte>, b: Byte) returns (r: Pointer)
    ensures IsFirstOccurrence(h, [b], 0, r)
  {
    for i := 0 to |h|
      invariant NoneBetween(h, [b], 0, i)
    {
      if h[i] == b {
        return At(i);
      }
      OccursAtByte(h, b, i);
    }
    r := Null;
  }

  lemma OccursAtByte(h: seq<Byte>, b: Byte, i: nat)
    ensures OccursAt(h, [b], i) <==> i < |h| && h[i] == b
  {
  }

  /** No needle starts where its first byte does not. */
  lemma OccursStarts(h: seq<Byte>, n: seq<Byte>, i: nat)
    requires |n| > 0 && OccursAt(h, n, i)
    ensures OccursAt(h, [n[0]], i)
  {
    assert h[i..i + |n|][0] == h[i];
  }

  lemma FirstByteFirst(h: seq<Byte>, n: seq<Byte>, lo: nat, hi: nat)
    requires |n| > 0 && NoneBetween(h, [n[0]], lo, hi)
    ensures NoneBetween(h, n, lo, hi)
  {
    forall i: nat | lo <= i < hi ensures !OccursAt(h, n, i) {
      if OccursAt(h, n, i) {
        OccursStarts(h, n, i);
        assert false;
      }
    }
  }

  /** `memmem`: the leftmost occurrence of the needle, for every haystack and every needle. */
  method MemMem(h0: seq<Byte>, n: seq<Byte>) returns (r: Pointer)
    ensures IsFirstOccurrence(h0, n, 0, r)
  {
    if |n| == 0 {
      return At(0);
    }
    if |h0| < |n| {
      return Null;
    }
    var first := MemChr(h0, n[0]);
    FirstByteFirst(h0, n, 0, if first == Null then |h0| else first.offset);
    assert |n| == 1 ==> n == [n[0]];
    if first == Null || |n| == 1 {
      return first;
    }
    var h := first.offset;
    if |h0| - h < |n| {
      return Null;
    }
    if |n| == 2 {
      r := TwoByte(h0, h, n);
    } else if |n| == 3 {
      r := ThreeByte(h0, h, n);
    } else if |n| == 4 {
      r := FourByte(h0, h, n);
    } else {
      r := TwoWay(h0, h, n);
    }
  }
}
