/** Line reassembly on the log pipe: what one read does to the bytes already held, and why the lines do
    not depend on how the stream was cut into reads. */
module LogPipe {
  import opened Basics
  import opened Octets

  const NUL: Byte := 0
  const NL: Byte := 10
  const CR: Byte := 13

  type Line = seq<Byte>

  /** The bytes held back, and the lines pushed to the logger so far. */
  datatype Pipe = Pipe(held: seq<Byte>, lines: seq<Line>)

  // ---- one read, as the source does it -------------------------------------------------------

  /** What `strchr` answers from position `from` of a terminated text: the first newline before any
      NUL, or the end of the text for none. */
  function FindNewline(data: seq<Byte>, from: nat): (r: nat)
    requires from <= |data|
    ensures from <= r <= |data|
    ensures r < |data| ==> data[r] == NL
    ensures forall i :: from <= i < r < |data| ==> data[i] != NL && data[i] != NUL
    ensures r == |data| && NUL !in data[from..] ==> NL !in data[from..]
    decreases |data| - from
  {
    if from == |data| || data[from] == NUL then |data|
    else if data[from] == NL then from
    else FindNewline(data, from + 1)
  }

  /** A line without one trailing return; an empty line is not pushed. */
  function Emit(line: Line): seq<Line> {
    var text := if line != [] && line[|line| - 1] == CR then line[..|line| - 1] else line;
    if text == [] then [] else [text]
  }

  /** Where the next line starts after the newline at `nl`: a return right behind it is consumed too. */
  function NextLine(data: seq<Byte>, nl: nat): (next: nat)
    requires nl < |data|
    ensures nl < next <= |data|
  {
    if nl + 1 < |data| && data[nl + 1] == CR then nl + 2 else nl + 1
  }

  /** The lines of `data` from the one that starts at `line`, scanning for newlines from `scan`, and the
      number of bytes they take up. */
  function Lines(data: seq<Byte>, line: nat, scan: nat): (r: (seq<Line>, nat))
    requires line <= scan <= |data|
    ensures line <= r.1 <= |data|
    decreases |data| - scan
  {
    var nl := FindNewline(data, scan);
    if nl == |data| then ([], line)
    else
      var next := NextLine(data, nl);
      var (rest, popped) := Lines(data, next, next);
      (Emit(data[line..nl]) + rest, popped)
  }

  lemma LinesFrom(data: seq<Byte>, line: nat, scan: nat)
    requires line <= scan <= |data| && FindNewline(data, scan) < |data|
    ensures var nl := FindNewline(data, scan);
            var next := NextLine(data, nl);
            && Lines(data, line, scan).0 == Emit(data[line..nl]) + Lines(data, next, next).0
            && Lines(data, line, scan).1 == Lines(data, next, next).1
  {
  }

  /** One read of `chunk` into a buffer of `size` bytes; an empty read is the end of the stream. */
  function Read(size: nat, p: Pipe, chunk: seq<Byte>): Pipe {
    var data := p.held + chunk;
    if data == [] then p
    else
      var (lines, popped) := Lines(data, 0, |p.held|);
      if popped > 0 then Pipe(data[popped..], p.lines + lines)
      else if |data| == size || chunk == [] then Pipe([], p.lines + [data])
      else Pipe(data, p.lines)
  }

  // ---- the reference: one byte at a time -----------------------------------------------------

  /** A byte, marked when it is the first of a read, or the end of the stream. */
  datatype Input = Arrives(b: Byte, first: bool) | End

  /** `after` is set when the byte before was a newline. */
  datatype Splitter = Splitter(line: Line, lines: seq<Line>, after: bool)

  /** A newline ends the line, a full line is pushed as it is, and a return right behind a newline is
      dropped when it came in the same read. */
  function Feed(size: nat, s: Splitter, i: Input): Splitter {
    match i
    case End => if s.line == [] then s.(after := false) else Splitter([], s.lines + [s.line], false)
    case Arrives(b, first) =>
      if b == CR && s.after && !first then s.(after := false)
      else if b == NL then Splitter([], s.lines + Emit(s.line), true)
      else if |s.line| + 1 == size then Splitter([], s.lines + [s.line + [b]], false)
      else Splitter(s.line + [b], s.lines, false)
  }

  /** Feed the bytes of `data` from `i` up to `j`, the one at `base` being the first of its read. */
  function FeedSpan(size: nat, s: Splitter, data: seq<Byte>, i: nat, j: nat, base: nat): Splitter
    requires i <= j <= |data|
  {
    if i == j then s
    else Feed(size, FeedSpan(size, s, data, i, j - 1, base), Arrives(data[j - 1], j - 1 == base))
  }

  /** One read, byte by byte. */
  function FeedRead(size: nat, s: Splitter, chunk: seq<Byte>): Splitter {
    if chunk == [] then Feed(size, s, End) else FeedSpan(size, s, chunk, 0, |chunk|, 0)
  }

  function FeedAll(size: nat, cuts: seq<seq<Byte>>): Splitter {
    if cuts == [] then Splitter([], [], false)
    else FeedRead(size, FeedAll(size, cuts[..|cuts| - 1]), cuts[|cuts| - 1])
  }

  // ---- runs ----------------------------------------------------------------------------------

  function ReadAll(size: nat, cuts: seq<seq<Byte>>): Pipe {
    if cuts == [] then Pipe([], []) else Read(size, ReadAll(size, cuts[..|cuts| - 1]), cuts[|cuts| - 1])
  }

  /** Every read fits in what the buffer has free. */
  ghost predicate Fit(size: nat, cuts: seq<seq<Byte>>) {
    cuts == [] ||
    (Fit(size, cuts[..|cuts| - 1]) && |ReadAll(size, cuts[..|cuts| - 1]).held| + |cuts[|cuts| - 1]| <= size)
  }

  ghost predicate NulFree(cuts: seq<seq<Byte>>) {
    forall i :: 0 <= i < |cuts| ==> NUL !in cuts[i]
  }

  // ---- feeding a stretch of a buffer ---------------------------------------------------------

  lemma {:induction false} SpanSplits(size: nat, s: Splitter, data: seq<Byte>, i: nat, m: nat, j: nat, base: nat)
    requires i <= m <= j <= |data|
    ensures FeedSpan(size, s, data, i, j, base)
         == FeedSpan(size, FeedSpan(size, s, data, i, m, base), data, m, j, base)
  {
    if m < j { SpanSplits(size, s, data, i, m, j - 1, base); }
  }

  /** The byte at `i` is not a return that the splitter would drop. */
  ghost predicate Kept(s: Splitter, data: seq<Byte>, i: nat, base: nat) {
    s.after ==> i >= |data| || i == base || data[i] != CR
  }

  /** Bytes without a newline that leave room in the line just make it longer. */
  lemma {:induction false} PlainSpan(size: nat, s: Splitter, data: seq<Byte>, i: nat, j: nat, base: nat)
    requires i <= j <= |data| && NL !in data[i..j] && Kept(s, data, i, base)
    requires |s.line| + (j - i) < size
    ensures var t := FeedSpan(size, s, data, i, j, base);
            t.line == s.line + data[i..j] && t.lines == s.lines && (i < j ==> !t.after) && (i == j ==> t == s)
  {
    if i < j {
      assert data[i..j] == data[i..j - 1] + [data[j - 1]];
      PlainSpan(size, s, data, i, j - 1, base);
    }
  }

  /** Up to the next newline, and past it: the line is pushed and the splitter starts afresh. */
  lemma LineIsFed(size: nat, s: Splitter, data: seq<Byte>, line: nat, scan: nat, nl: nat, base: nat)
    requires base <= scan && line <= scan <= nl < |data| <= size && NL !in data[scan..nl] && data[nl] == NL
    requires s.line == data[line..scan] && Kept(s, data, scan, base)
    ensures var next := NextLine(data, nl);
            var t := FeedSpan(size, s, data, scan, next, base);
            t == Splitter([], s.lines + Emit(data[line..nl]), next == nl + 1) && Kept(t, data, next, base)
  {
    PlainSpan(size, s, data, scan, nl, base);
    Rejoin(data, line, scan, nl);
    var u := FeedSpan(size, s, data, scan, nl, base);
    assert FeedSpan(size, s, data, scan, nl + 1, base) == Feed(size, u, Arrives(NL, nl == base));
  }

  /** Whole lines: feeding the buffer pushes the lines that scanning it finds and keeps the rest. */
  lemma {:induction false} LinesAreFed(size: nat, s: Splitter, data: seq<Byte>, line: nat, scan: nat, base: nat)
    requires base <= scan && line <= scan <= |data| <= size && NUL !in data[scan..]
    requires s.line == data[line..scan] && Kept(s, data, scan, base)
    requires line > 0 || FindNewline(data, scan) < |data|
    ensures var t := FeedSpan(size, s, data, scan, |data|, base);
            var (lines, popped) := Lines(data, line, scan);
            t.line == data[popped..] && t.lines == s.lines + lines
    decreases |data| - scan
  {
    var nl := FindNewline(data, scan);
    if nl == |data| {
      assert data[scan..nl] == data[scan..];
      PlainSpan(size, s, data, scan, nl, base);
      Rejoin(data, line, scan, nl);
      assert data[line..nl] == data[line..];
    } else {
      var next := NextLine(data, nl);
      LineIsFed(size, s, data, line, scan, nl, base);
      var w := FeedSpan(size, s, data, scan, next, base);
      assert data[next..] == data[scan..][next - scan..];
      LinesAreFed(size, w, data, next, next, base);
      SpanSplits(size, s, data, scan, next, |data|, base);
      var rest := Lines(data, next, next).0;
      Regroup(s.lines, Emit(data[line..nl]), rest);
    }
  }

  /** What scanning leaves has no newline. */
  lemma {:induction false} RestIsPlain(data: seq<Byte>, line: nat, scan: nat)
    requires line <= scan <= |data| && NUL !in data[scan..] && NL !in data[line..scan]
    ensures var popped := Lines(data, line, scan).1; NL !in data[popped..]
    ensures FindNewline(data, scan) < |data| ==> Lines(data, line, scan).1 > 0
    decreases |data| - scan
  {
    var nl := FindNewline(data, scan);
    if nl == |data| {
      assert data[line..] == data[line..scan] + data[scan..];
    } else {
      var next := NextLine(data, nl);
      assert data[next..] == data[scan..][next - scan..];
      RestIsPlain(data, next, next);
    }
  }

  // ---- one read ------------------------------------------------------------------------------

  /** The buffer and the splitter agree: same bytes held back, same lines pushed. */
  ghost predicate Agree(p: Pipe, s: Splitter) {
    p.held == s.line && p.lines == s.lines
  }

  /** Feeding a read is feeding the part of the buffer it was read into. */
  lemma {:induction false} ReadIsSpan(size: nat, s: Splitter, held: seq<Byte>, chunk: seq<Byte>, n: nat)
    requires n <= |chunk|
    ensures FeedSpan(size, s, chunk, 0, n, 0) == FeedSpan(size, s, held + chunk, |held|, |held| + n, |held|)
  {
    if n > 0 { ReadIsSpan(size, s, held, chunk, n - 1); }
  }

  /** A read without a newline makes the line longer, up to a full buffer. */
  lemma PlainRead(size: nat, s: Splitter, data: seq<Byte>, n: nat)
    requires n < |data| <= size && NL !in data[n..] && s.line == data[..n]
    ensures var t := FeedSpan(size, s, data, n, |data|, n);
            if |data| == size then t.line == [] && t.lines == s.lines + [data] else t.line == data && t.lines == s.lines
  {
    var last := |data| - 1;
    assert data[n..last] == data[n..][..last - n];
    PlainSpan(size, s, data, n, last, n);
    assert data[..n] + data[n..last] == data[..last] && data[..last] + [data[last]] == data;
    assert data[n..][last - n] != NL;
  }

  lemma ReadPops(size: nat, p: Pipe, chunk: seq<Byte>)
    requires NUL !in chunk && NL !in p.held && FindNewline(p.held + chunk, |p.held|) < |p.held| + |chunk|
    ensures var data := p.held + chunk;
            var (lines, popped) := Lines(data, 0, |p.held|);
            Read(size, p, chunk) == Pipe(data[popped..], p.lines + lines)
  {
    var data, n := p.held + chunk, |p.held|;
    assert data[0..n] == p.held && data[n..] == chunk;
    RestIsPlain(data, 0, n);
  }

  /** A read with a newline. */
  lemma LinesRead(size: nat, p: Pipe, chunk: seq<Byte>, s: Splitter)
    requires Agree(p, s) && NUL !in chunk && NL !in p.held && |p.held| + |chunk| <= size
    requires chunk != [] && FindNewline(p.held + chunk, |p.held|) < |p.held| + |chunk|
    ensures Agree(Read(size, p, chunk), FeedSpan(size, s, p.held + chunk, |p.held|, |p.held| + |chunk|, |p.held|))
  {
    hide Read, FeedSpan, Lines;
    var data, n := p.held + chunk, |p.held|;
    assert data[0..n] == p.held && data[n..] == chunk;
    ReadPops(size, p, chunk);
    LinesAreFed(size, s, data, 0, n, n);
  }

  /** A read without one. */
  lemma LineGrows(size: nat, p: Pipe, chunk: seq<Byte>, s: Splitter)
    requires Agree(p, s) && NUL !in chunk && |p.held| + |chunk| <= size
    requires chunk != [] && FindNewline(p.held + chunk, |p.held|) == |p.held| + |chunk|
    ensures Agree(Read(size, p, chunk), FeedSpan(size, s, p.held + chunk, |p.held|, |p.held| + |chunk|, |p.held|))
  {
    var data, n := p.held + chunk, |p.held|;
    assert data[..n] == p.held && data[n..] == chunk;
    PlainRead(size, s, data, n);
    assert Lines(data, 0, n) == ([], 0);
  }

  /** One read of any size does what feeding its bytes one by one does. */
  lemma ReadIsFed(size: nat, p: Pipe, chunk: seq<Byte>, s: Splitter)
    requires Agree(p, s) && NL !in p.held && NUL !in chunk && |p.held| < size && |p.held| + |chunk| <= size
    ensures Agree(Read(size, p, chunk), FeedRead(size, s, chunk))
  {
    if chunk == [] {
      assert p.held + chunk == p.held;
    } else {
      ReadIsSpan(size, s, p.held, chunk, |chunk|);
      if FindNewline(p.held + chunk, |p.held|) < |p.held| + |chunk| {
        LinesRead(size, p, chunk, s);
      } else {
        LineGrows(size, p, chunk, s);
      }
    }
  }

  /** A read leaves no newline behind, and room for more. */
  lemma ReadLeavesRoom(size: nat, p: Pipe, chunk: seq<Byte>)
    requires NL !in p.held && NUL !in chunk && |p.held| < size && |p.held| + |chunk| <= size
    ensures NL !in Read(size, p, chunk).held && |Read(size, p, chunk).held| < size
  {
    var data, n := p.held + chunk, |p.held|;
    assert data[..n] == p.held && data[n..] == chunk;
    RestIsPlain(data, 0, n);
    assert data[0..] == data;
  }

  // ---- whole streams -------------------------------------------------------------------------

  /** For every stream without NULs and every way of cutting it into reads that fit: the lines pushed and
      the bytes held back are those of the splitter that takes one byte at a time.  The held bytes never
      contain a newline, and there is always room to read. */
  lemma {:induction false} ReadsAreFed(size: nat, cuts: seq<seq<Byte>>)
    requires size > 0 && Fit(size, cuts) && NulFree(cuts)
    ensures Agree(ReadAll(size, cuts), FeedAll(size, cuts))
    ensures NL !in ReadAll(size, cuts).held && |ReadAll(size, cuts).held| < size
  {
    if cuts != [] {
      var pre, chunk := cuts[..|cuts| - 1], cuts[|cuts| - 1];
      ReadsAreFed(size, pre);
      ReadIsFed(size, ReadAll(size, pre), chunk, FeedAll(size, pre));
      ReadLeavesRoom(size, ReadAll(size, pre), chunk);
    }
  }

  // ---- cuts do not matter --------------------------------------------------------------------

  /** The stream itself. */
  function Stream(cuts: seq<seq<Byte>>): seq<Byte> {
    if cuts == [] then [] else Stream(cuts[..|cuts| - 1]) + cuts[|cuts| - 1]
  }

  /** The splitter on a stream that arrives all at once. */
  function Split(size: nat, stream: seq<Byte>): Splitter {
    FeedSpan(size, Splitter([], [], false), stream, 0, |stream|, 0)
  }

  ghost predicate EndsLine(x: seq<Byte>) {
    x != [] && x[|x| - 1] == NL
  }

  lemma {:induction false} AfterIsNewline(size: nat, s: Splitter, data: seq<Byte>, i: nat, j: nat, base: nat)
    requires i < j <= |data| && FeedSpan(size, s, data, i, j, base).after
    ensures data[j - 1] == NL
  {
  }

  /** Inside a stream the first byte of a read is like any other, unless it is such a return. */
  lemma {:induction false} ReadJoins(size: nat, s: Splitter, pre: seq<Byte>, chunk: seq<Byte>, n: nat)
    requires n <= |chunk| && (n > 0 && pre != [] && s.after ==> chunk[0] != CR)
    ensures FeedSpan(size, s, chunk, 0, n, 0) == FeedSpan(size, s, pre + chunk, |pre|, |pre| + n, 0)
  {
    if n > 0 { ReadJoins(size, s, pre, chunk, n - 1); }
  }

  lemma {:induction false} PrefixSpan(size: nat, s: Splitter, pre: seq<Byte>, chunk: seq<Byte>, n: nat)
    requires n <= |pre|
    ensures FeedSpan(size, s, pre + chunk, 0, n, 0) == FeedSpan(size, s, pre, 0, n, 0)
  {
    if n > 0 { PrefixSpan(size, s, pre, chunk, n - 1); }
  }

  /** The second read starts with a return that belongs to the newline before it, and a line with something
      in it, or no newline at all, follows. */
  ghost predicate CutsReturn(x: seq<Byte>, y: seq<Byte>) {
    EndsLine(x) && y != [] && y[0] == CR && (|y| == 1 || y[1] != NL)
  }

  /** At the start of a read the return is kept. */
  lemma SplitReturn(size: nat, w: Splitter, y: seq<Byte>)
    requires y != [] && y[0] == CR && w.line == [] && 1 < size
    ensures FeedRead(size, w, y) == FeedSpan(size, Splitter([CR], w.lines, false), y, 1, |y|, 0)
  {
    SpanSplits(size, w, y, 0, 1, |y|, 0);
    assert FeedSpan(size, w, y, 0, 0, 0) == w && w.line + [CR] == [CR];
    assert FeedSpan(size, w, y, 0, 1, 0) == Splitter([CR], w.lines, false);
  }

  lemma LineEnds(size: nat, s: Splitter, x: seq<Byte>)
    requires EndsLine(x)
    ensures FeedRead(size, s, x).after && FeedRead(size, s, x).line == []
  {
  }

  /** In one read the return behind the newline is dropped. */
  lemma JoinedReturn(size: nat, w: Splitter, x: seq<Byte>, y: seq<Byte>)
    requires x != [] && y != [] && y[0] == CR && w.after && w.line == []
    ensures FeedSpan(size, w, x + y, |x|, |x + y|, 0) == FeedSpan(size, Splitter([], w.lines, false), y, 1, |y|, 0)
  {
    var data, n := x + y, |x|;
    DropsReturn(size, w, data, n);
    SpanSplits(size, w, data, n, n + 1, |data|, 0);
    Shifted(size, Splitter([], w.lines, false), x, y, 1, |y|);
  }

  lemma DropsReturn(size: nat, w: Splitter, data: seq<Byte>, n: nat)
    requires 0 < n < |data| && data[n] == CR && w.after && w.line == []
    ensures FeedSpan(size, w, data, n, n + 1, 0) == Splitter([], w.lines, false)
  {
    assert FeedSpan(size, w, data, n, n, 0) == w;
    assert Feed(size, w, Arrives(CR, false)) == w.(after := false);
  }

  lemma {:induction false} Shifted(size: nat, s: Splitter, x: seq<Byte>, y: seq<Byte>, i: nat, j: nat)
    requires x != [] && 0 < i <= j <= |y|
    ensures FeedSpan(size, s, x + y, |x| + i, |x| + j, 0) == FeedSpan(size, s, y, i, j, 0)
  {
    if i < j { Shifted(size, s, x, y, i, j - 1); }
  }

  /** When a newline follows the return, it makes no difference: a line with nothing in it is not pushed. */
  lemma HarmlessReturn(size: nat, w: Splitter, x: seq<Byte>, y: seq<Byte>)
    requires x != [] && 1 < |y| <= size && y[0] == CR && y[1] == NL && w.after && w.line == []
    ensures FeedRead(size, w, y) == FeedSpan(size, w, x + y, |x|, |x + y|, 0)
  {
    var s, r := Splitter([CR], w.lines, false), Splitter([], w.lines, false);
    SplitReturn(size, w, y);
    JoinedReturn(size, w, x, y);
    SpanSplits(size, s, y, 1, 2, |y|, 0);
    SpanSplits(size, r, y, 1, 2, |y|, 0);
    assert FeedSpan(size, s, y, 1, 2, 0) == FeedSpan(size, r, y, 1, 2, 0) by {
      assert FeedSpan(size, s, y, 1, 1, 0) == s && FeedSpan(size, r, y, 1, 1, 0) == r;
      assert Emit([CR]) == [] == Emit([]);
    }
  }

  /** No read is empty, and none starts with such a return. */
  ghost predicate CleanCuts(cuts: seq<seq<Byte>>) {
    forall i :: 0 <= i < |cuts| ==> cuts[i] != [] && !CutsReturn(Stream(cuts[..i]), cuts[i])
  }

  /** One more read that is clean. */
  lemma CleanReadJoins(size: nat, pre: seq<Byte>, chunk: seq<Byte>)
    requires chunk != [] && |chunk| <= size && !CutsReturn(pre, chunk)
    ensures FeedRead(size, Split(size, pre), chunk) == Split(size, pre + chunk)
  {
    var start, s := Splitter([], [], false), Split(size, pre);
    if EndsLine(pre) && chunk[0] == CR {
      LineEnds(size, start, pre);
      HarmlessReturn(size, s, pre, chunk);
    } else {
      if pre != [] && s.after {
        AfterIsNewline(size, start, pre, 0, |pre|, 0);
      }
      ReadJoins(size, s, pre, chunk, |chunk|);
    }
    PrefixSpan(size, start, pre, chunk, |pre|);
    SpanSplits(size, start, pre + chunk, 0, |pre|, |pre + chunk|, 0);
  }

  lemma {:induction false} CleanCutsJoin(size: nat, cuts: seq<seq<Byte>>)
    requires CleanCuts(cuts) && Fit(size, cuts)
    ensures FeedAll(size, cuts) == Split(size, Stream(cuts))
  {
    if cuts != [] {
      var before, chunk := cuts[..|cuts| - 1], cuts[|cuts| - 1];
      assert forall i :: 0 <= i < |before| ==> before[..i] == cuts[..i];
      CleanCutsJoin(size, before);
      CleanReadJoins(size, Stream(before), chunk);
    }
  }

  /** Two ways of cutting the same stream, neither of which separates a newline from a return behind it that
      starts a line, push the same lines and hold back the same bytes. */
  lemma CutsDoNotMatter(size: nat, a: seq<seq<Byte>>, b: seq<seq<Byte>>)
    requires size > 0 && Fit(size, a) && Fit(size, b) && NulFree(a) && NulFree(b)
    requires Stream(a) == Stream(b) && CleanCuts(a) && CleanCuts(b)
    ensures ReadAll(size, a) == ReadAll(size, b)
  {
    ReadsAreFed(size, a);
    ReadsAreFed(size, b);
    CleanCutsJoin(size, a);
    CleanCutsJoin(size, b);
  }

  /** No newline is directly followed by a return. */
  ghost predicate Plain(stream: seq<Byte>) {
    forall i :: 0 < i < |stream| && stream[i] == CR ==> stream[i - 1] != NL
  }

  lemma PlainParts(pre: seq<Byte>, chunk: seq<Byte>)
    requires Plain(pre + chunk)
    ensures Plain(pre) && (chunk != [] && EndsLine(pre) ==> chunk[0] != CR)
  {
    var stream := pre + chunk;
    assert forall i :: 0 <= i < |pre| ==> pre[i] == stream[i];
    if chunk != [] && EndsLine(pre) {
      assert stream[|pre|] == chunk[0] && stream[|pre| - 1] == NL;
    }
  }

  /** A plain stream can be cut anywhere. */
  lemma {:induction false} PlainStreamsCutAnywhere(cuts: seq<seq<Byte>>)
    requires Plain(Stream(cuts)) && forall i :: 0 <= i < |cuts| ==> cuts[i] != []
    ensures CleanCuts(cuts)
  {
    if cuts != [] {
      var before, chunk := cuts[..|cuts| - 1], cuts[|cuts| - 1];
      PlainParts(Stream(before), chunk);
      PlainStreamsCutAnywhere(before);
      forall i | 0 <= i < |cuts| ensures !CutsReturn(Stream(cuts[..i]), cuts[i]) {
        if i < |before| {
          assert before[..i] == cuts[..i] && before[i] == cuts[i];
        }
      }
    }
  }

  /** So such a stream gives the same lines however it is cut. */
  lemma PlainStreamsReadTheSame(size: nat, a: seq<seq<Byte>>, b: seq<seq<Byte>>)
    requires size > 0 && Fit(size, a) && Fit(size, b) && NulFree(a) && NulFree(b)
    requires Stream(a) == Stream(b) && Plain(Stream(a))
    requires forall i :: 0 <= i < |a| ==> a[i] != []
    requires forall i :: 0 <= i < |b| ==> b[i] != []
    ensures ReadAll(size, a) == ReadAll(size, b)
  {
    PlainStreamsCutAnywhere(a);
    PlainStreamsCutAnywhere(b);
    CutsDoNotMatter(size, a, b);
  }

  // ---- cuts that do matter -------------------------------------------------------------------

  /** Lines pushed before make no difference to what is fed. */
  lemma {:induction false} LinesStandApart(size: nat, s: Splitter, data: seq<Byte>, i: nat, j: nat, base: nat)
    requires i <= j <= |data|
    ensures var t, u := FeedSpan(size, s, data, i, j, base), FeedSpan(size, s.(lines := []), data, i, j, base);
            t == Splitter(u.line, s.lines + u.lines, u.after)
  {
    hide Emit;
    if i < j {
      LinesStandApart(size, s, data, i, j - 1, base);
      var u := FeedSpan(size, s.(lines := []), data, i, j - 1, base);
      Regroup(s.lines, u.lines, Emit(u.line));
      Regroup(s.lines, u.lines, [u.line + [data[j - 1]]]);
      Regroup(s.lines, u.lines, []);
    }
  }

  lemma SameEnd<T>(a: seq<T>, b: seq<T>, c: seq<T>)
    ensures a + c == b + c <==> a == b
  {
    if a + c == b + c {
      assert |a| == |b|;
      assert a == (a + c)[..|a|] == (b + c)[..|a|] == b;
    }
  }

  /** A return in front makes another line, unless the line is empty but for it. */
  lemma EmitsDiffer(line: Line)
    ensures Emit([CR] + line) == Emit(line) <==> line == []
  {
    var a, b := Emit([CR] + line), Emit(line);
    if line != [] {
      assert ([CR] + line)[|line|] == line[|line| - 1];
      assert |a| == 1 && (b == [] || |a[0]| == |b[0]| + 1);
    }
  }

  /** The return that starts the read `y` was dropped in `s`, and kept in `t`. */
  lemma ReturnMatters(size: nat, lines: seq<Line>, y: seq<Byte>)
    requires y != [] && NUL !in y && |y| < size
    ensures var t, u := FeedSpan(size, Splitter([CR], lines, false), y, 1, |y|, 0),
                        FeedSpan(size, Splitter([], lines, false), y, 1, |y|, 0);
            (t.line == u.line && t.lines == u.lines) <==> |y| > 1 && y[1] == NL
  {
    var s, r := Splitter([CR], lines, false), Splitter([], lines, false);
    var nl := FindNewline(y, 1);
    var text := y[1..nl];
    PlainSpan(size, s, y, 1, nl, 0);
    PlainSpan(size, r, y, 1, nl, 0);
    assert [CR] + text != text by { assert |[CR] + text| == |text| + 1; }
    if nl < |y| {
      var t, u := FeedSpan(size, s, y, 1, nl + 1, 0), FeedSpan(size, r, y, 1, nl + 1, 0);
      AfterLine(size, s, y, nl, [CR] + text);
      AfterLine(size, r, y, nl, [] + text);
      EmitsDiffer(text);
      SameStart(lines, Emit([CR] + text), Emit(text));
      SpanSplits(size, s, y, 1, nl + 1, |y|, 0);
      SpanSplits(size, r, y, 1, nl + 1, |y|, 0);
      LinesStandApart(size, t, y, nl + 1, |y|, 0);
      LinesStandApart(size, u, y, nl + 1, |y|, 0);
      SameEnd(t.lines, u.lines, FeedSpan(size, Splitter([], [], true), y, nl + 1, |y|, 0).lines);
      assert text == [] <==> y[1] == NL;
    }
  }

  lemma AfterLine(size: nat, s: Splitter, y: seq<Byte>, nl: nat, line: Line)
    requires 1 <= nl < |y| && y[nl] == NL
    requires FeedSpan(size, s, y, 1, nl, 0).line == line && FeedSpan(size, s, y, 1, nl, 0).lines == s.lines
    ensures FeedSpan(size, s, y, 1, nl + 1, 0) == Splitter([], s.lines + Emit(line), true)
  {
  }

  lemma SameStart<T>(a: seq<T>, b: seq<T>, c: seq<T>)
    ensures a + b == a + c <==> b == c
  {
    if a + b == a + c { assert b == (a + b)[|a|..] == (a + c)[|a|..] == c; }
  }

  lemma OneRead(size: nat, s: Splitter, x: seq<Byte>, y: seq<Byte>)
    requires x != []
    ensures FeedRead(size, s, x + y) == FeedSpan(size, FeedRead(size, s, x), x + y, |x|, |x + y|, 0)
  {
    PrefixSpan(size, s, x, y, |x|);
    SpanSplits(size, s, x + y, 0, |x|, |x + y|, 0);
  }

  /** Two reads in the place of one, for the splitter. */
  lemma FeedMattersWhen(size: nat, s: Splitter, x: seq<Byte>, y: seq<Byte>)
    requires x != [] && y != [] && NUL !in y && |y| < size
    ensures var t, u := FeedRead(size, FeedRead(size, s, x), y), FeedRead(size, s, x + y);
            (t.line == u.line && t.lines == u.lines) <==> !CutsReturn(x, y)
  {
    var w := FeedRead(size, s, x);
    OneRead(size, s, x, y);
    if EndsLine(x) && y[0] == CR {
      LineEnds(size, s, x);
      SplitReturn(size, w, y);
      JoinedReturn(size, w, x, y);
      ReturnMatters(size, w.lines, y);
    } else {
      if w.after { AfterIsNewline(size, s, x, 0, |x|, 0); }
      ReadJoins(size, w, x, y, |y|);
    }
  }

  /** When a cut matters: two reads give what one read of the same bytes gives, exactly unless the second
      starts with a return behind a newline that is not itself followed by a newline. */
  lemma CutMattersWhen(size: nat, p: Pipe, x: seq<Byte>, y: seq<Byte>)
    requires NL !in p.held && NUL !in x && NUL !in y && x != [] && y != [] && |p.held| + |x| + |y| <= size
    ensures Read(size, Read(size, p, x), y) == Read(size, p, x + y) <==> !CutsReturn(x, y)
  {
    var s := Splitter(p.held, p.lines, false);
    ReadIsFed(size, p, x, s);
    ReadLeavesRoom(size, p, x);
    ReadIsFed(size, p, x + y, s);
    ReadIsFed(size, Read(size, p, x), y, FeedRead(size, s, x));
    FeedMattersWhen(size, s, x, y);
  }

  // ---- texts come back -----------------------------------------------------------------------

  /** Text that fits a line and neither starts nor ends with a return; it may be empty. */
  ghost predicate IsText(size: nat, t: Line) {
    && NUL !in t && NL !in t && |t| + 1 < size
    && (t != [] ==> t[0] != CR && t[|t| - 1] != CR)
  }

  ghost predicate AreTexts(size: nat, texts: seq<Line>) {
    forall i :: 0 <= i < |texts| ==> IsText(size, texts[i])
  }

  /** What ends the line of a text: a newline, or a return and a newline. */
  function Ending(crlf: bool): seq<Byte> {
    if crlf then [13, 10] else [10]
  }

  /** The texts, each with its ending. */
  function Written(texts: seq<Line>, crlf: nat -> bool): seq<Byte> {
    if texts == [] then []
    else Written(texts[..|texts| - 1], crlf) + (texts[|texts| - 1] + Ending(crlf(|texts| - 1)))
  }

  /** The texts with something in them. */
  function NonEmpty(texts: seq<Line>): seq<Line> {
    if texts == [] then []
    else NonEmpty(texts[..|texts| - 1]) + if texts[|texts| - 1] == [] then [] else [texts[|texts| - 1]]
  }

  /** Feeding one more text with its ending, between lines. */
  lemma TextIsFed(size: nat, s: Splitter, data: seq<Byte>, i: nat, t: Line, crlf: bool)
    requires IsText(size, t) && s.line == [] && (s.after ==> i > 0) && i + |t| + |Ending(crlf)| <= |data|
    requires data[i..i + |t|] == t && data[i + |t|..i + |t| + |Ending(crlf)|] == Ending(crlf)
    ensures FeedSpan(size, s, data, i, i + |t| + |Ending(crlf)|, 0)
         == Splitter([], s.lines + if t == [] then [] else [t], true)
  {
    var n := i + |t|;
    assert data[n] == data[n..n + |Ending(crlf)|][0];
    if crlf {
      assert data[n + 1] == data[n..n + 2][1];
      if t == [] { EmptyIsFed(size, s, data, i); } else { ReturnIsFed(size, s, data, i, t); }
    } else {
      PlainSpan(size, s, data, i, n, 0);
      assert [] + t == t && Emit(t) == if t == [] then [] else [t];
    }
  }

  /** A return and a newline with nothing before them. */
  lemma EmptyIsFed(size: nat, s: Splitter, data: seq<Byte>, i: nat)
    requires size > 1 && s.line == [] && (s.after ==> i > 0) && i + 2 <= |data| && data[i] == CR && data[i + 1] == NL
    ensures FeedSpan(size, s, data, i, i + 2, 0) == Splitter([], s.lines, true)
  {
    hide Feed, Emit;
    EmptyLine(size, s, i == 0);
    assert FeedSpan(size, s, data, i, i + 1, 0) == Feed(size, s, Arrives(data[i], i == 0));
    assert FeedSpan(size, s, data, i, i + 2, 0)
        == Feed(size, FeedSpan(size, s, data, i, i + 1, 0), Arrives(data[i + 1], false));
  }

  lemma EmptyLine(size: nat, s: Splitter, first: bool)
    requires size > 1 && s.line == [] && (s.after ==> !first)
    ensures Feed(size, Feed(size, s, Arrives(CR, first)), Arrives(NL, false)) == Splitter([], s.lines, true)
  {
    assert Emit([]) == [] == Emit([CR]);
  }

  lemma ReturnIsFed(size: nat, s: Splitter, data: seq<Byte>, i: nat, t: Line)
    requires IsText(size, t) && t != [] && s.line == [] && i + |t| + 2 <= |data|
    requires data[i..i + |t|] == t && data[i + |t|] == CR && data[i + |t| + 1] == NL
    ensures FeedSpan(size, s, data, i, i + |t| + 2, 0) == Splitter([], s.lines + [t], true)
  {
    hide Emit;
    var n := i + |t|;
    PlainSpan(size, s, data, i, n, 0);
    assert [] + t == t;
    var v := FeedSpan(size, s, data, i, n + 1, 0);
    assert v == Splitter(t + [CR], s.lines, false);
    EmitsText(t);
  }

  lemma EmitsText(t: Line)
    requires t != []
    ensures Emit(t + [CR]) == [t]
  {
    assert (t + [CR])[..|t|] == t;
  }

  /** The same behind other text. */
  lemma OneMoreText(size: nat, head: seq<Byte>, t: Line, crlf: bool)
    requires IsText(size, t) && Split(size, head).line == [] && (Split(size, head).after ==> head != [])
    ensures var s := Split(size, head);
            Split(size, head + (t + Ending(crlf))) == Splitter([], s.lines + if t == [] then [] else [t], true)
  {
    hide FeedSpan, IsText;
    var start, e := Splitter([], [], false), Ending(crlf);
    var data := head + (t + e);
    assert data[|head|..|head| + |t|] == t && data[|head| + |t|..|head| + |t| + |e|] == e;
    PrefixSpan(size, start, head, t + e, |head|);
    SpanSplits(size, start, data, 0, |head|, |data|, 0);
    TextIsFed(size, Split(size, head), data, |head|, t, crlf);
  }

  /** The splitter gives the texts back. */
  lemma {:induction false} TextsAreSplit(size: nat, texts: seq<Line>, crlf: nat -> bool)
    requires AreTexts(size, texts) && size > 1
    ensures Split(size, Written(texts, crlf)) == Splitter([], NonEmpty(texts), texts != [])
  {
    if texts != [] {
      var n := |texts| - 1;
      var pre, t := texts[..n], texts[n];
      TextsAreSplit(size, pre, crlf);
      OneMoreText(size, Written(pre, crlf), t, crlf(n));
    }
  }

  /** Lines that were written come back as the texts they were made of, whether they end in a newline alone or in
      a return and a newline, and however they are cut into reads that are clean; empty ones are not pushed. */
  lemma TextsComeBack(size: nat, texts: seq<Line>, crlf: nat -> bool, cuts: seq<seq<Byte>>)
    requires size > 1 && AreTexts(size, texts)
    requires Fit(size, cuts) && NulFree(cuts) && CleanCuts(cuts) && Stream(cuts) == Written(texts, crlf)
    ensures ReadAll(size, cuts) == Pipe([], NonEmpty(texts))
  {
    ReadsAreFed(size, cuts);
    CleanCutsJoin(size, cuts);
    TextsAreSplit(size, texts, crlf);
  }
}
