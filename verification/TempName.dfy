/** Temporary file names: the run of Xs at the end of a path is filled with the digits of the process
    number and then stepped through until the file system has no such name. */
module TempName {
  import opened Basics

  const NUL: char := 0 as char

  /** What the file system says to a candidate: the name is free, it is taken, or something else is
      wrong. */
  datatype Answer = Free | Taken | Failed

  // ---- the odometer --------------------------------------------------------------------------

  /** A decimal digit is worth nothing, the letters count from one. */
  function Worth(c: char): nat {
    if 'a' <= c <= 'z' then c as nat - 'a' as nat + 1 else 0
  }

  predicate IsDigit(c: char) {
    '0' <= c <= '9'
  }

  predicate IsLetter(c: char) {
    'a' <= c <= 'z'
  }

  predicate Proper(s: seq<char>) {
    forall i :: 0 <= i < |s| ==> IsDigit(s[i]) || IsLetter(s[i])
  }

  predicate Digits(s: seq<char>) {
    forall i :: 0 <= i < |s| ==> IsDigit(s[i])
  }

  predicate Letters(s: seq<char>) {
    forall i :: 0 <= i < |s| ==> IsLetter(s[i])
  }

  /** How many readings a run of `n` positions goes through: one of digits alone, and one for each way to
      put letters into its first one, first two, and so on. */
  function Readings(n: nat): (p: nat)
    ensures p >= 1
  {
    if n == 0 then 1 else 1 + 26 * Readings(n - 1)
  }

  /** The steps that lead to a run from its digits; the first position counts least. */
  function Count(s: seq<char>): nat {
    if s == [] then 0 else Worth(s[0]) + 26 * Count(s[1..])
  }

  lemma {:induction false} CountIsBounded(s: seq<char>)
    ensures Count(s) < Readings(|s|)
  {
    if s != [] { CountIsBounded(s[1..]); }
  }

  /** There is a next reading unless every position shows the last letter. */
  predicate HasNext(s: seq<char>) {
    exists i :: 0 <= i < |s| && s[i] != 'z'
  }

  /** The letter after a digit or a letter. */
  function Letter(c: char): char
    requires IsDigit(c) || (IsLetter(c) && c != 'z')
  {
    if IsDigit(c) then 'a' else (c as int + 1) as char
  }

  /** One position on, and the carry. */
  function Next(s: seq<char>): (t: seq<char>)
    requires HasNext(s) && Proper(s)
    ensures |t| == |s| && Proper(t)
  {
    if s[0] == 'z' then ['a'] + Next(s[1..]) else [Letter(s[0])] + s[1..]
  }

  /** Every step counts one: no reading is passed over. */
  lemma {:induction false} NextCountsOne(s: seq<char>)
    requires HasNext(s) && Proper(s)
    ensures Count(Next(s)) == Count(s) + 1
  {
    var t := Next(s);
    if s[0] == 'z' {
      NextCountsOne(s[1..]);
      assert t[1..] == Next(s[1..]);
    } else {
      assert t[1..] == s[1..];
    }
  }

  lemma {:induction false} DigitsCountZero(s: seq<char>)
    requires Proper(s)
    ensures Count(s) == 0 <==> Digits(s)
  {
    if s != [] {
      DigitsCountZero(s[1..]);
      assert Digits(s) <==> IsDigit(s[0]) && Digits(s[1..]) by { assert s == [s[0]] + s[1..]; }
    }
  }

  /** The reading after `k` steps from the digits `first`: letters in front, and behind them the digits that
      were not reached. */
  ghost predicate Reading(s: seq<char>, first: seq<char>, k: nat) {
    && Proper(s) && |s| == |first| && Count(s) == k
    && exists m :: LettersThen(s, first, m)
  }

  ghost predicate LettersThen(s: seq<char>, first: seq<char>, m: nat) {
    m <= |s| == |first| && Letters(s[..m]) && s[m..] == first[m..]
  }

  lemma CountTellsLetters(s: seq<char>, first: seq<char>, m: nat)
    requires Proper(s) && Digits(first) && LettersThen(s, first, m)
    ensures if m == 0 then s == first && Count(s) == 0 else Count(s) > 0 && IsLetter(s[0])
  {
    if m == 0 {
      assert s == s[0..] && first == first[0..];
      DigitsCountZero(s);
    } else {
      assert IsLetter(s[..m][0]);
    }
  }

  lemma {:induction false} NextHasLetters(s: seq<char>, first: seq<char>, m: nat) returns (n: nat)
    requires HasNext(s) && Proper(s) && Digits(first) && LettersThen(s, first, m)
    ensures LettersThen(Next(s), first, n)
  {
    var t := Next(s);
    CountTellsLetters(s, first, m);
    if s[0] == 'z' {
      assert s[1..][..m - 1] == s[..m][1..] && s[1..][m - 1..] == s[m..] && first[1..][m - 1..] == first[m..];
      n := NextHasLetters(s[1..], first[1..], m - 1);
      n := n + 1;
      assert t[..n] == ['a'] + Next(s[1..])[..n - 1] && t[n..] == Next(s[1..])[n - 1..];
      assert first[1..][n - 1..] == first[n..];
    } else if m == 0 {
      n := 1;
      assert t[1..] == s[1..] == s[0..][1..] == first[0..][1..] == first[1..];
      assert t[..1] == ['a'];
    } else {
      n := m;
      assert t[n..] == s[n..] && t[..n] == [Letter(s[0])] + s[..n][1..];
    }
  }

  lemma NextIsReading(s: seq<char>, first: seq<char>, k: nat)
    requires Reading(s, first, k) && HasNext(s) && Digits(first)
    ensures Reading(Next(s), first, k + 1)
  {
    var m: nat :| LettersThen(s, first, m);
    var n := NextHasLetters(s, first, m);
    NextCountsOne(s);
  }

  /** The number of steps determines the reading. */
  lemma {:induction false} SameReading(s: seq<char>, t: seq<char>, first: seq<char>, m: nat, n: nat)
    requires Proper(s) && Proper(t) && Digits(first) && LettersThen(s, first, m) && LettersThen(t, first, n)
    requires Count(s) == Count(t)
    ensures s == t
  {
    CountTellsLetters(s, first, m);
    CountTellsLetters(t, first, n);
    if m > 0 {
      assert s[1..][..m - 1] == s[..m][1..] && s[1..][m - 1..] == s[m..] && first[1..][m - 1..] == first[m..];
      assert t[1..][..n - 1] == t[..n][1..] && t[1..][n - 1..] == t[n..] && first[1..][n - 1..] == first[n..];
      SameReading(s[1..], t[1..], first[1..], m - 1, n - 1);
      assert s == [s[0]] + s[1..] && t == [t[0]] + t[1..];
    }
  }

  /** The last reading has the highest count. */
  lemma {:induction false} LastCountsMost(s: seq<char>, t: seq<char>)
    requires |s| == |t| && !HasNext(s)
    ensures Count(t) <= Count(s)
  {
    if s != [] {
      assert s[0] == 'z';
      assert forall i :: 0 <= i < |s[1..]| ==> s[1..][i] == s[i + 1];
      LastCountsMost(s[1..], t[1..]);
    }
  }

  /** `pid` without its `k` lowest decimal digits. */
  function Quot(pid: nat, k: nat): nat {
    if k == 0 then pid else Quot(pid, k - 1) / 10
  }

  /** The `n` lowest decimal digits of `pid`. */
  function PidText(pid: nat, n: nat): (s: seq<char>)
    ensures |s| == n && Digits(s)
  {
    if n == 0 then [] else [(Quot(pid, n - 1) % 10 + '0' as int) as char] + PidText(pid, n - 1)
  }

  /** The number that a run of digits stands for. */
  function Decimal(s: seq<char>): int
  {
    if s == [] then 0 else (s[0] as int - '0' as int) * Pow10(|s| - 1) + Decimal(s[1..])
  }

  lemma {:induction false} DigitsAddUp(pid: nat, n: nat)
    ensures pid == Quot(pid, n) * Pow10(n) + Decimal(PidText(pid, n)) && 0 <= Decimal(PidText(pid, n)) < Pow10(n)
  {
    if n > 0 {
      DigitsAddUp(pid, n - 1);
      assert PidText(pid, n)[1..] == PidText(pid, n - 1);
      OneMoreDigit(Quot(pid, n), Quot(pid, n - 1) % 10, Pow10(n - 1), Decimal(PidText(pid, n - 1)));
    }
  }

  lemma OneMoreDigit(q: nat, d: nat, p: nat, r: nat)
    requires d < 10 && r < p
    ensures (10 * q + d) * p + r == q * (10 * p) + (d * p + r) && 0 <= d * p + r < 10 * p
  {
  }

  /** The digits are those of the process number, as many of the lowest as there is room for. */
  lemma PidReads(pid: nat, n: nat)
    ensures Decimal(PidText(pid, n)) == pid % Pow10(n)
  {
    DigitsAddUp(pid, n);
    RemainderIs(pid, Pow10(n), Quot(pid, n), Decimal(PidText(pid, n)));
  }

  lemma RemainderIs(a: nat, b: nat, q: nat, r: nat)
    requires a == q * b + r && r < b
    ensures a % b == r
  {
    var p, m := a / b, a % b;
    Apart(q - p, b);
    assert (q - p) * b == q * b - p * b;
  }

  lemma Apart(k: int, b: nat)
    ensures k > 0 ==> k * b >= b
    ensures k < 0 ==> k * b + b <= 0
  {
  }

  // ---- the path ------------------------------------------------------------------------------

  /** Where the run of Xs that ends `s` starts. */
  function RunStart(s: seq<char>): (i: nat)
    ensures i <= |s| && (forall j :: i <= j < |s| ==> s[j] == 'X') && (i > 0 ==> s[i - 1] != 'X')
  {
    if s == [] || s[|s| - 1] != 'X' then |s| else RunStart(s[..|s| - 1])
  }

  predicate Slash(c: char) {
    c == '/' || c == '\\'
  }

  /** The last separator of `s`, not counting one at the very start; 0 for none. */
  function LastSlash(s: seq<char>): (i: nat)
    ensures i > 0 ==> i < |s| && Slash(s[i])
    ensures forall j :: i < j < |s| ==> !Slash(s[j])
  {
    if |s| <= 1 then 0 else if Slash(s[|s| - 1]) then |s| - 1 else LastSlash(s[..|s| - 1])
  }

  /** The text up to the terminator. */
  ghost predicate Text(path: array<char>, len: nat)
    reads path
  {
    len < path.Length && path[len] == NUL && NUL !in path[..len]
  }

  /** The readings of the run in their order, from the digits on. */
  ghost predicate Search(runs: seq<seq<char>>, first: seq<char>) {
    forall i :: 0 <= i < |runs| ==> Reading(runs[i], first, i)
  }

  /** No candidate is tried twice. */
  lemma NeverTwice(runs: seq<seq<char>>, first: seq<char>, prefix: seq<char>)
    requires Search(runs, first)
    ensures forall i, j :: 0 <= i < j < |runs| ==> prefix + runs[i] != prefix + runs[j]
  {
    forall i, j | 0 <= i < j < |runs| ensures prefix + runs[i] != prefix + runs[j] {
      assert (prefix + runs[i])[|prefix|..] == runs[i] && (prefix + runs[j])[|prefix|..] == runs[j];
    }
  }

  lemma {:induction false} LastCounts(s: seq<char>)
    requires !HasNext(s)
    ensures Count(s) + 1 == Readings(|s|)
  {
    if s != [] {
      assert s[0] == 'z';
      assert forall i :: 0 <= i < |s[1..]| ==> s[1..][i] == s[i + 1];
      LastCounts(s[1..]);
    }
  }

  /** A search that comes to the last reading has tried every run of letters. */
  lemma NoneIsPassedOver(runs: seq<seq<char>>, first: seq<char>)
    requires Digits(first) && Search(runs, first) && runs != [] && !HasNext(runs[|runs| - 1])
    ensures |runs| == Readings(|first|) && forall t :: Letters(t) && |t| == |first| ==> t in runs
  {
    var last := |runs| - 1;
    LastCounts(runs[last]);
    assert Reading(runs[last], first, last);
    forall t | Letters(t) && |t| == |first| ensures t in runs {
      LastCountsMost(runs[last], t);
      LettersAreReadings(runs[Count(t)], first, t);
    }
  }

  lemma LettersAreReadings(s: seq<char>, first: seq<char>, t: seq<char>)
    requires Digits(first) && Letters(t) && |t| == |first| && Reading(s, first, Count(t))
    ensures s == t
  {
    var m: nat :| LettersThen(s, first, m);
    assert LettersThen(t, first, |t|);
    SameReading(s, t, first, m, |t|);
  }

  lemma Extend(path: array<char>, i: nat, len: nat)
    requires i < len <= path.Length
    ensures path[i..len] == [path[i]] + path[i + 1..len]
  {
  }

  /** Fill the run of Xs with digits.  When there is nothing else, the character in front of the path is
      looked at as well. */
  method Fill(path: array<char>, len: nat, pid: nat, before: char) returns (start: nat)
    requires Text(path, len) && (before != 'X' || RunStart(path[..len]) > 0)
    modifies path
    ensures start == old(RunStart(path[..len])) && path[len] == NUL
    ensures path[..start] == old(path[..start]) && path[start..len] == PidText(pid, len - start)
  {
    ghost var s, run := path[..len], RunStart(path[..len]);
    start := len;
    var rest := pid;
    while (if start > 0 then path[start - 1] else before) == 'X'
      invariant run <= start <= len && path[len] == NUL
      invariant forall i :: 0 <= i < start ==> path[i] == s[i]
      invariant path[start..len] == PidText(pid, len - start) && rest == Quot(pid, len - start)
      decreases start
    {
      start := start - 1;
      path[start] := (rest % 10 + '0' as int) as char;
      rest := rest / 10;
      Extend(path, start, len);
    }
    assert path[..start] == s[..start];
  }

  function Repeated(c: char, n: nat): (s: seq<char>)
    ensures |s| == n && forall i :: 0 <= i < n ==> s[i] == c
  {
    seq(n, _ => c)
  }

  /** The carry runs over the letters z that come first. */
  lemma {:induction false} NextCarries(s: seq<char>, k: nat)
    requires Proper(s) && k < |s| && s[k] != 'z' && forall i :: 0 <= i < k ==> s[i] == 'z'
    ensures HasNext(s) && Next(s) == Repeated('a', k) + [Letter(s[k])] + s[k + 1..]
  {
    if k > 0 {
      NextCarries(s[1..], k - 1);
      assert s[1..][k..] == s[k + 1..];
      assert Repeated('a', k) == ['a'] + Repeated('a', k - 1);
    }
  }

  /** A run whose leading letters z became letters a, with the one behind them moved on, shows the next
      reading. */
  lemma NextIs(s: seq<char>, t: seq<char>, k: nat)
    requires Proper(s) && k < |s| == |t| && s[k] != 'z' && t[k] == Letter(s[k])
    requires forall i :: 0 <= i < k ==> s[i] == 'z' && t[i] == 'a'
    requires forall i :: k < i < |s| ==> t[i] == s[i]
    ensures HasNext(s) && Next(s) == t
  {
    NextCarries(s, k);
  }

  /** The same of a run in place. */
  lemma Stepped(path: array<char>, start: nat, len: nat, s: seq<char>, k: nat)
    requires start <= len <= path.Length && |s| == len - start && Proper(s)
    requires k < |s| && s[k] != 'z' && path[start + k] == Letter(s[k])
    requires forall i :: start <= i < start + k ==> s[i - start] == 'z' && path[i] == 'a'
    requires forall i :: start + k < i < len ==> path[i] == s[i - start]
    ensures HasNext(s) && path[start..len] == Next(s)
  {
    var t := path[start..len];
    forall i | 0 <= i < |s| ensures if i < k then s[i] == 'z' && t[i] == 'a' else i == k || t[i] == s[i] {
      assert t[i] == path[start + i];
      assert start + i - start == i;
    }
    NextIs(s, t, k);
  }

  /** Turn the letters z that come first into letters a. */
  method Carry(path: array<char>, start: nat, len: nat) returns (trv: nat)
    requires start <= len < path.Length && path[len] == NUL && Proper(path[start..len])
    modifies path
    ensures start <= trv <= len && path[trv] != 'z'
    ensures forall i :: 0 <= i < trv - start ==> old(path[start..len])[i] == 'z'
    ensures forall i :: start <= i < trv ==> path[i] == 'a'
    ensures forall i :: 0 <= i < path.Length && !(start <= i < trv) ==> path[i] == old(path[i])
  {
    trv := start;
    while path[trv] == 'z'
      invariant start <= trv <= len
      invariant forall i :: start <= i < trv ==> path[i] == 'a' && old(path[i]) == 'z'
      invariant forall i :: 0 <= i < path.Length && !(start <= i < trv) ==> path[i] == old(path[i])
      decreases len - trv
    {
      path[trv] := 'a';
      trv := trv + 1;
    }
  }

  /** Step the run to its next reading, in place; when there is none it is left at its lowest letters. */
  method Step(path: array<char>, start: nat, len: nat) returns (more: bool)
    requires start <= len < path.Length && path[len] == NUL && Proper(path[start..len])
    modifies path
    ensures more <==> old(HasNext(path[start..len]))
    ensures path[start..len] == if more then Next(old(path[start..len])) else Repeated('a', len - start)
    ensures forall i :: 0 <= i < path.Length && !(start <= i < len) ==> path[i] == old(path[i])
  {
    ghost var s := path[start..len];
    var trv := Carry(path, start, len);
    ghost var k := trv - start;
    assert trv < len ==> path[trv] == s[k];
    if path[trv] == NUL {
      assert trv == len && |s| == k;
      return false;
    }
    path[trv] := if '0' <= path[trv] <= '9' then 'a' else (path[trv] as int + 1) as char;
    Stepped(path, start, len, s, k);
    return true;
  }

  // ---- the search ----------------------------------------------------------------------------

  /** Check the directory the name is in: the path up to the last separator, which is cut off for the
      question and put back only when the answer is yes. */
  method CheckDirectory(path: array<char>, start: nat, isDir: seq<char> -> bool) returns (ok: bool)
    requires start <= path.Length
    modifies path
    ensures var s := old(path[..start]);
            ok <==> LastSlash(s) == 0 || isDir(s[..LastSlash(s)])
    ensures ok ==> path[..] == old(path[..])
    ensures !ok ==> path[..] == old(path[..][LastSlash(path[..start]) := NUL])
  {
    var trv: int := start - 1;
    ghost var s := path[..start];
    assert s[..start] == s;
    while trv > 0 && !Slash(path[trv])
      invariant -1 <= trv < start && LastSlash(s) == LastSlash(s[..trv + 1])
      decreases trv
    {
      assert s[..trv + 1][..trv] == s[..trv];
      trv := trv - 1;
    }
    if trv <= 0 {
      return true;
    }
    var slash := path[trv];
    path[trv] := NUL;
    assert path[..trv] == s[..trv];
    ok := isDir(path[..trv]);
    if ok {
      path[trv] := slash;
    }
  }

  ghost predicate AllTaken(runs: seq<seq<char>>, prefix: seq<char>, answer: (nat, seq<char>) -> Answer) {
    forall i :: 0 <= i < |runs| ==> answer(i, prefix + runs[i]) == Taken
  }

  lemma OneMoreTaken(runs: seq<seq<char>>, run: seq<char>, prefix: seq<char>, answer: (nat, seq<char>) -> Answer)
    requires AllTaken(runs, prefix, answer) && answer(|runs|, prefix + run) == Taken
    ensures AllTaken(runs + [run], prefix, answer)
  {
    forall i | 0 <= i < |runs + [run]| ensures answer(i, prefix + (runs + [run])[i]) == Taken {
      assert i < |runs| ==> (runs + [run])[i] == runs[i];
    }
  }

  /** How the search ended: every candidate but the last was taken, a free one ends it well, and it
      gives up only on another error or after the last reading of the run. */
  ghost predicate Ended(runs: seq<seq<char>>, prefix: seq<char>, ok: bool, answer: (nat, seq<char>) -> Answer) {
    && runs != []
    && AllTaken(runs[..|runs| - 1], prefix, answer)
    && var reply := answer(|runs| - 1, prefix + runs[|runs| - 1]);
       && (ok <==> reply == Free)
       && (reply == Taken ==> !HasNext(runs[|runs| - 1]))
  }

  /** The candidates tried so far, all of them taken, and the reading `run` that comes next. */
  ghost predicate Hunting(runs: seq<seq<char>>, run: seq<char>, prefix: seq<char>, first: seq<char>,
                          answer: (nat, seq<char>) -> Answer) {
    Digits(first) && Search(runs, first) && AllTaken(runs, prefix, answer) && Reading(run, first, |runs|)
  }

  lemma HuntStarts(first: seq<char>, prefix: seq<char>, answer: (nat, seq<char>) -> Answer)
    requires Digits(first)
    ensures Hunting([], first, prefix, first, answer)
  {
    DigitsCountZero(first);
    assert LettersThen(first, first, 0);
  }

  lemma SearchGoesOn(runs: seq<seq<char>>, run: seq<char>, first: seq<char>)
    requires Search(runs, first) && Reading(run, first, |runs|)
    ensures Search(runs + [run], first) && |runs| + 1 <= Readings(|first|)
  {
    CountIsBounded(run);
  }

  /** The last candidate. */
  lemma HuntEnds(runs: seq<seq<char>>, run: seq<char>, prefix: seq<char>, first: seq<char>,
                 answer: (nat, seq<char>) -> Answer)
    requires Hunting(runs, run, prefix, first, answer)
    ensures var all, reply := runs + [run], answer(|runs|, prefix + run);
            && Search(all, first) && |all| <= Readings(|first|)
            && (reply != Taken || !HasNext(run) ==> Ended(all, prefix, reply == Free, answer))
  {
    hide Reading, HasNext, Search, Readings;
    SearchGoesOn(runs, run, first);
    assert (runs + [run])[..|runs|] == runs;
  }

  /** One that is taken, and another reading to come. */
  lemma HuntGoesOn(runs: seq<seq<char>>, run: seq<char>, prefix: seq<char>, first: seq<char>,
                   answer: (nat, seq<char>) -> Answer)
    requires Hunting(runs, run, prefix, first, answer) && answer(|runs|, prefix + run) == Taken && HasNext(run)
    ensures Hunting(runs + [run], Next(run), prefix, first, answer)
    ensures Count(run) < Count(Next(run)) < Readings(|first|)
  {
    OneMoreTaken(runs, run, prefix, answer);
    NextIsReading(run, first, |runs|);
    CountIsBounded(Next(run));
  }

  /** Try one candidate after another until the file system has an answer. */
  method Hunt(path: array<char>, start: nat, len: nat, answer: (nat, seq<char>) -> Answer)
    returns (ok: bool, ghost runs: seq<seq<char>>)
    requires start <= len < path.Length && path[len] == NUL && Digits(path[start..len])
    modifies path
    ensures Search(runs, old(path[start..len])) && |runs| <= Readings(len - start)
    ensures Ended(runs, old(path[..start]), ok, answer)
    ensures ok ==> path[..len] == old(path[..start]) + runs[|runs| - 1]
  {
    ghost var prefix, first := path[..start], path[start..len];
    ghost var run := first;
    runs := [];
    HuntStarts(first, prefix, answer);
    var attempt := 0;
    while true
      invariant path[len] == NUL && path[..start] == prefix && path[start..len] == run
      invariant attempt == |runs| && Hunting(runs, run, prefix, first, answer)
      decreases Readings(len - start) - Count(run)
    {
      HuntEnds(runs, run, prefix, first, answer);
      assert path[..len] == prefix + run;
      var reply := answer(attempt, path[..len]);
      if reply != Taken {
        return reply == Free, runs + [run];
      }
      var more := Step(path, start, len);
      if !more {
        return false, runs + [run];
      }
      HuntGoesOn(runs, run, prefix, first, answer);
      runs := runs + [run];
      run := Next(run);
      assert path[..start] == prefix;
      attempt := attempt + 1;
    }
  }

  /** A candidate is the text before the run of Xs and a reading of the run, the lowest digits of the process
      number first; the readings follow each other without a gap, so none is tried twice, and a search that gives
      up because all were taken has tried every run of letters.  No candidate is tried when the directory is not
      there.  Only a path of nothing but Xs with another X in front of it in memory, which would be written to, is
      left out. */
  method GetTemp(path: array<char>, len: nat, pid: nat, before: char, isDir: seq<char> -> bool,
                 answer: (nat, seq<char>) -> Answer)
    returns (ok: bool, ghost runs: seq<seq<char>>)
    requires Text(path, len) && (before != 'X' || RunStart(path[..len]) > 0)
    modifies path
    ensures var prefix := old(path[..RunStart(path[..len])]);
            var n := len - |prefix|;
            if LastSlash(prefix) > 0 && !isDir(prefix[..LastSlash(prefix)]) then !ok && runs == []
            else
              && Ended(runs, prefix, ok, answer) && Search(runs, PidText(pid, n)) && |runs| <= Readings(n)
              && (ok ==> path[..len] == prefix + runs[|runs| - 1])
              && (answer(|runs| - 1, prefix + runs[|runs| - 1]) == Taken
                  ==> |runs| == Readings(n) && forall t :: Letters(t) && |t| == n ==> t in runs)
  {
    hide Search, Readings, HasNext, AllTaken;
    var start := Fill(path, len, pid, before);
    ghost var prefix := path[..start];
    var found := CheckDirectory(path, start, isDir);
    if !found {
      return false, [];
    }
    ok, runs := Hunt(path, start, len, answer);
    if answer(|runs| - 1, prefix + runs[|runs| - 1]) == Taken {
      NoneIsPassedOver(runs, PidText(pid, len - start));
    }
  }
}
