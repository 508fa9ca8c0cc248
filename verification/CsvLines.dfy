/**
  The line reader: a sliding window of two blocks and a third block being filled, against a plain
  definition of the lines of a text.
 */
module CsvLines {
  import opened CsvAsync

  // ---------- the lines of a text ----------

  // Where the first line ends: the first newline, or the end of the text.
  function LineEnd(s: seq<char>): (r: nat)
    ensures r <= |s| && '\n' !in s[..r]
    ensures r < |s| ==> s[r] == '\n'
  {
    if |s| == 0 || s[0] == '\n' then 0
    else
      assert s[..1 + LineEnd(s[1..])] == [s[0]] + s[1..][..LineEnd(s[1..])];
      1 + LineEnd(s[1..])
  }

  // What follows the first line.
  function AfterLine(s: seq<char>): seq<char> {
    if LineEnd(s) < |s| then s[LineEnd(s) + 1..] else []
  }

  // A line without its carriage return.
  function Chomp(s: seq<char>): seq<char> {
    if |s| > 0 && s[|s| - 1] == '\r' then s[..|s| - 1] else s
  }

  function Lines(s: seq<char>): seq<seq<char>>
    decreases |s|
  {
    if s == [] then [] else [Chomp(s[..LineEnd(s)])] + Lines(AfterLine(s))
  }

  // Every line fits a block, newline included.
  predicate LinesFit(s: seq<char>, blockLen: nat)
    decreases |s|
  {
    s == [] || (LineEnd(s) < blockLen && LinesFit(AfterLine(s), blockLen))
  }

  // The lines before the first one that does not fit.
  function FittingLines(s: seq<char>, blockLen: nat): seq<seq<char>>
    decreases |s|
  {
    if s == [] || LineEnd(s) >= blockLen then []
    else [Chomp(s[..LineEnd(s)])] + FittingLines(AfterLine(s), blockLen)
  }

  lemma {:induction false} AllFit(s: seq<char>, blockLen: nat)
    requires LinesFit(s, blockLen)
    ensures FittingLines(s, blockLen) == Lines(s)
    decreases |s|
  {
    if s != [] { AllFit(AfterLine(s), blockLen); }
  }

  const BOM: seq<char> := ['\U{EF}', '\U{BB}', '\U{BF}']

  function SkipBom(s: seq<char>): seq<char> {
    if BOM <= s then s[3..] else s
  }

  // Text made of lines, each followed by a newline.
  function Unlines(lines: seq<seq<char>>): seq<char> {
    if lines == [] then [] else lines[0] + ['\n'] + Unlines(lines[1..])
  }

  predicate PlainLine(l: seq<char>) {
    '\n' !in l && (|l| > 0 ==> l[|l| - 1] != '\r')
  }

  lemma LineEndIs(s: seq<char>, k: nat)
    requires k <= |s| && '\n' !in s[..k] && (k < |s| ==> s[k] == '\n')
    ensures LineEnd(s) == k
  {}

  lemma NoneBefore(s: seq<char>, k: nat)
    requires k <= |s| && '\n' !in s[..k]
    ensures LineEnd(s) >= k
  {}

  // Reading lines undoes writing them.
  lemma {:induction false} LinesOfUnlines(lines: seq<seq<char>>)
    requires forall i :: 0 <= i < |lines| ==> PlainLine(lines[i])
    ensures Lines(Unlines(lines)) == lines
  {
    if lines != [] {
      LinesOfUnlines(lines[1..]);
      FirstLine(lines[0], Unlines(lines[1..]));
      assert lines == [lines[0]] + lines[1..];
    }
  }

  // The newline after the last line may be missing.
  lemma {:induction false} LastNewlineMissing(lines: seq<seq<char>>, last: seq<char>)
    requires forall i :: 0 <= i < |lines| ==> PlainLine(lines[i])
    requires PlainLine(last) && last != []
    ensures Lines(Unlines(lines) + last) == lines + [last]
  {
    hide Lines, LineEnd, AfterLine;
    if lines == [] {
      assert Unlines(lines) + last == last;
      OnlyLine(last);
    } else {
      var u := Unlines(lines[1..]);
      LastNewlineMissing(lines[1..], last);
      FirstLine(lines[0], u + last);
      Regroup(lines[0], u, last);
      assert lines + [last] == [lines[0]] + (lines[1..] + [last]);
    }
  }

  lemma Regroup(l: seq<char>, u: seq<char>, last: seq<char>)
    ensures (l + ['\n'] + u) + last == l + ['\n'] + (u + last)
  {}

  lemma OnlyLine(l: seq<char>)
    requires PlainLine(l) && l != []
    ensures Lines(l) == [l]
  {
    assert l[..|l|] == l;
    LineEndIs(l, |l|);
    assert Lines(AfterLine(l)) == [];
  }

  lemma FirstLine(l: seq<char>, rest: seq<char>)
    requires PlainLine(l)
    ensures Lines(l + ['\n'] + rest) == [l] + Lines(rest)
  {
    var s := l + ['\n'] + rest;
    assert s[..|l|] == l;
    LineEndIs(s, |l|);
    assert AfterLine(s) == rest;
  }

  // A carriage return before the newline makes no difference.
  lemma CarriageReturn(l: seq<char>, rest: seq<char>)
    requires '\n' !in l
    ensures Lines(l + ['\r', '\n'] + rest) == [l] + Lines(rest)
  {
    var s := l + ['\r', '\n'] + rest;
    assert s[..|l| + 1] == l + ['\r'];
    LineEndIs(s, |l| + 1);
    assert AfterLine(s) == rest;
  }

  lemma BomTest(s: seq<char>, r: nat)
    requires r <= |s| && (r < 3 ==> r == |s|)
    ensures BOM <= s <==> r >= 3 && s[0] == BOM[0] && s[1] == BOM[1] && s[2] == BOM[2]
  {
    assert r >= 3 && s[0] == BOM[0] && s[1] == BOM[1] && s[2] == BOM[2] ==> s[..3] == BOM;
  }

  // std::memcpy of one block of n.
  ghost predicate BlockMoved(b: seq<char>, b': seq<char>, n: nat, from: nat, to: nat) {
    && |b'| == |b| && to + n <= from && from + n <= |b|
    && b'[to..to + n] == b[from..from + n]
    && b'[..to] == b[..to] && b'[to + n..] == b[to + n..]
  }

  // The text of a window on the buffer and of what the source still has.
  ghost function Text(b: seq<char>, begin: nat, end: nat, source: seq<char>): seq<char>
    requires begin <= end <= |b|
  {
    b[begin..end] + source
  }

  // At `begin` the buffer has this line, followed by a NUL.
  ghost predicate Terminated(b: seq<char>, begin: nat, length: nat, line: seq<char>) {
    begin + length < |b| && b[begin..begin + length] == line && b[begin + length] == '\0'
  }

  // The third block is not touched while the worker may be writing to it.
  ghost predicate ThirdBlockKept(b: seq<char>, b': seq<char>, n: nat) {
    |b'| == |b| == 3 * n && b'[2 * n..] == b[2 * n..]
  }

  // The second block in the place of the first.
  lemma SlidText(b: seq<char>, b': seq<char>, n: nat, begin: nat, end: nat, source: seq<char>)
    requires |b| == 3 * n && n <= begin <= end <= 2 * n && BlockMoved(b, b', n, n, 0)
    ensures |b'| == |b| && Text(b', begin - n, end - n, source) == Text(b, begin, end, source)
  {
    SamePart(b', 0, b, n, n, begin - n, end - begin);
    SameText(b', begin - n, b, begin, end - begin, source);
  }

  lemma SameText(b: seq<char>, i: nat, b': seq<char>, j: nat, k: nat, source: seq<char>)
    requires i + k <= |b| && j + k <= |b'| && b[i..i + k] == b'[j..j + k]
    ensures Text(b, i, i + k, source) == Text(b', j, j + k, source)
  {}

  // A part of two equal parts.
  lemma SamePart(s: seq<char>, a: nat, t: seq<char>, c: nat, n: nat, i: nat, k: nat)
    requires a + n <= |s| && c + n <= |t| && s[a..a + n] == t[c..c + n] && i + k <= n
    ensures s[a + i..a + i + k] == t[c + i..c + i + k]
  {
    SubSlice(s, a, a + n, i, i + k);
    SubSlice(t, c, c + n, i, i + k);
  }

  lemma EmptyText(b: seq<char>, begin: nat, end: nat, source: seq<char>)
    requires begin <= end <= |b|
    ensures Text(b, begin, end, source) == [] <==> begin == end && source == []
  {}

  lemma SubSlice<T>(s: seq<T>, a: nat, b: nat, i: nat, j: nat)
    requires a <= b <= |s| && i <= j <= b - a
    ensures s[a..b][i..j] == s[a + i..a + j]
  {
    var t := s[a..b];
    forall k | 0 <= k < j - i ensures t[i..j][k] == s[a + i..a + j][k] {
      assert t[i..j][k] == t[i + k] == s[a + (i + k)];
    }
  }

  // r bytes of the source read into the third block.
  ghost predicate BlockRead(b: seq<char>, b': seq<char>, n: nat, source: seq<char>, r: nat) {
    && |b'| == |b| == 3 * n && r <= n && r <= |source|
    && b'[..2 * n] == b[..2 * n] && b'[2 * n..2 * n + r] == source[..r]
  }

  lemma FilledBlock(b: seq<char>, b': seq<char>, n: nat, data: seq<char>, source: seq<char>)
    requires |b'| == |b| == 3 * n && |data| <= n && data <= source
    requires forall i :: 0 <= i < 2 * n ==> b'[i] == b[i]
    requires forall i :: 0 <= i < |data| ==> b'[2 * n + i] == data[i]
    ensures BlockRead(b, b', n, source, |data|)
  {
    assert b'[2 * n..2 * n + |data|] == data;
  }

  // The third block in the place of the second, after r bytes were read into it.
  lemma FilledText(b: seq<char>, b': seq<char>, b'': seq<char>, n: nat, begin: nat, end: nat, r: nat, source: seq<char>)
    requires BlockRead(b, b', n, source, r) && BlockMoved(b', b'', n, 2 * n, n)
    requires begin <= end <= n && (r > 0 ==> end == n)
    ensures |b''| == |b| && Text(b'', begin, end + r, source[r..]) == Text(b, begin, end, source)
  {
    SamePart(b'', 0, b', 0, n, begin, end - begin);
    SamePart(b', 0, b, 0, 2 * n, begin, end - begin);
    if r > 0 {
      SamePart(b'', n, b', 2 * n, n, 0, r);
    }
    hide BlockMoved;
    Grown(b'', b, begin, end, r, source);
  }

  lemma Grown(b': seq<char>, b: seq<char>, begin: nat, end: nat, r: nat, source: seq<char>)
    requires begin <= end <= end + r <= |b'| && end <= |b| && r <= |source|
    requires b'[begin..end] == b[begin..end] && b'[end..end + r] == source[..r]
    ensures Text(b', begin, end + r, source[r..]) == Text(b, begin, end, source)
  {
    assert b'[begin..end + r] == b'[begin..end] + b'[end..end + r];
    assert source == source[..r] + source[r..];
  }

  // ---------- the reader ----------

  datatype NextLine = EndOfFile | Line(begin: nat, length: nat) | LengthLimitExceeded(fileLine: nat)

  // The asynchronous reader between start_read and finish_read: a read of n bytes is started, and `rest`
  // of the source `origin` is still to be collected.
  ghost predicate Reading(async: State, origin: seq<char>, n: nat, rest: seq<char>) {
    && Inv(async) && Synchronous(async, origin) && async.caller.Started? && !async.readError
    && |async.requests| == |async.outcomes| + 1 && async.requests[|async.outcomes|] == n
    && rest == Uncollected(async, origin)
  }

  // The asynchronous reader between finish_read and start_read.
  ghost predicate Collected(async: State, origin: seq<char>, rest: seq<char>) {
    && Inv(async) && Synchronous(async, origin) && async.caller.Idle? && !async.readError
    && |async.requests| == |async.outcomes| && rest == Uncollected(async, origin)
  }

  // Whatever the interleaving, finish_read gives the next n bytes, or what is left of them.
  lemma FinishGives(scheduler: State -> seq<Step>, async: State, origin: seq<char>, n: nat, rest: seq<char>)
    requires Fair(scheduler) && Reading(async, origin, n, rest) && !SawEnd(async)
    ensures Returned(async, scheduler(async))
    ensures var t := After(async, scheduler(async)); var r := Min(n, |rest|);
            && Collected(t, origin, rest[r..]) && |t.outcomes| > 0
            && t.outcomes[|t.outcomes| - 1] == Bytes(rest[..r]) && (SawEnd(t) <==> r == 0)
  {
    hide Inv, Synchronous, Uncollected;
    FinishReturns(async, scheduler(async), origin);
  }

  lemma StartGives(async: State, origin: seq<char>, n: nat, rest: seq<char>)
    requires Collected(async, origin, rest) && n > 0
    ensures Enabled(async, StartRead(n))
    ensures Reading(Do(async, StartRead(n)), origin, n, rest) && SawEnd(Do(async, StartRead(n))) == SawEnd(async)
  {
    hide SyncRest;
    var t := Do(async, StartRead(n));
    StepKeepsInv(async, StartRead(n));
    StepKeepsSynchronous(async, StartRead(n), origin);
    hide Inv, Synchronous;
    assert t.requests[..|t.outcomes|] == async.requests[..|async.outcomes|];
  }

  lemma InitGives(origin: seq<char>)
    ensures Collected(Init(origin), origin, origin) && !SawEnd(Init(origin))
  {}

  // Where the window lies, as long as there is more to collect and once the worker is gone.
  predicate Window(begin: nat, end: nat, n: nat, more: bool, gone: bool) {
    && begin <= end <= 2 * n
    && (more ==> begin < end == 2 * n && !gone)
    && (gone ==> end <= n || begin == end)
  }

  lemma WindowCut(begin: nat, end: nat, n: nat, more: bool, gone: bool, lineEnd: nat)
    requires Window(begin, end, n, more, gone) && begin < n && begin <= lineEnd <= end && lineEnd - begin < n
    requires lineEnd == end ==> !more
    ensures var end' := if lineEnd == end then end + 1 else end;
            Window(lineEnd + 1, end', n, more, gone) && lineEnd + 1 <= end' <= 2 * n && end <= 2 * n
  {}

  class LineReader {
    const blockLen: nat
    const buffer: array<char>
    const scheduler: State -> seq<Step>
    var dataBegin: nat
    var dataEnd: nat
    var fileLine: nat
    var readerValid: bool       // a worker fills the third block
    var async: State            // the reader: its worker, its shared fields and its byte source

    ghost var origin: seq<char> // what the byte source had when the worker was started
    ghost var source: seq<char> // what has not been collected from it yet

    // The worker has reported the end of the input and has exited.
    predicate WorkerGone()
      reads this`readerValid, this`async
    {
      readerValid && SawEnd(async)
    }

    /**
      A read is always under way; the window ends at the end of the second block unless the source is
      used up; and once the worker is gone the window never reaches the second block again.
     */
    ghost predicate Valid()
      reads this
    {
      && blockLen > 0 && buffer.Length == 3 * blockLen && Fair(scheduler)
      && (if readerValid then Reading(async, origin, blockLen, source) else source == [])
      && Window(dataBegin, dataEnd, blockLen, source != [], WorkerGone())
    }

    // The text not yet returned.
    ghost function Rest(): seq<char>
      reads this, buffer
      requires dataBegin <= dataEnd <= buffer.Length
    {
      Text(buffer[..], dataBegin, dataEnd, source)
    }

    /**
      init: the first two blocks are read, a byte order mark is skipped, and when there may be more the
      worker is started on the third block.
     */
    constructor (blockLen: nat, input: seq<char>, scheduler: State -> seq<Step>)
      requires blockLen >= 2 && Fair(scheduler)
      ensures Valid() && fresh(buffer) && fileLine == 0 && this.blockLen == blockLen && this.scheduler == scheduler
      ensures Rest() == SkipBom(input)
    {
      hide Reading, Collected, Fair, SawEnd;
      this.blockLen, this.scheduler := blockLen, scheduler;
      var b := new char[3 * blockLen];
      var r := Min(|input|, 2 * blockLen);
      forall i | 0 <= i < r { b[i] := input[i]; }
      assert b[..r] == input[..r];
      var skip := if r >= 3 && b[0] == BOM[0] && b[1] == BOM[1] && b[2] == BOM[2] then 3 else 0;
      BomTest(input, r);
      assert b[skip..r] + input[r..] == input[skip..];
      buffer, dataEnd, fileLine, dataBegin := b, r, 0, skip;
      readerValid := r == 2 * blockLen;
      var reader := Init(input[r..]);
      InitGives(input[r..]);
      if r == 2 * blockLen {
        StartGives(reader, input[r..], blockLen, input[r..]);
        reader := Do(reader, StartRead(blockLen));
      }
      async := reader;
      origin, source := input[r..], input[r..];
    }

    /**
      reader.finish_read, in whatever interleaving with the worker: the third block is filled with the
      next bytes of the source.  The worker must not have exited.
     */
    method FinishRead() returns (r: nat)
      requires buffer.Length == 3 * blockLen && Fair(scheduler)
      requires Reading(async, origin, blockLen, source) && !SawEnd(async)
      modifies this`source, this`async, buffer
      ensures r == Min(blockLen, |old(source)|) && source == old(source)[r..]
      ensures Collected(async, origin, source) && (SawEnd(async) <==> r == 0)
      ensures BlockRead(old(buffer[..]), buffer[..], blockLen, old(source), r)
    {
      hide Reading, Collected, Fair, SawEnd;
      FinishGives(scheduler, async, origin, blockLen, source);
      var t := After(async, scheduler(async));
      var data := t.outcomes[|t.outcomes| - 1].data;
      r := |data|;
      FillBlock(data);
      async := t;
      source := source[r..];
    }

    // What the worker wrote to the third block.
    method FillBlock(data: seq<char>)
      requires buffer.Length == 3 * blockLen && |data| <= blockLen
      modifies buffer
      ensures forall src: seq<char> :: data <= src ==> BlockRead(old(buffer[..]), buffer[..], blockLen, src, |data|)
    {
      hide BlockRead;
      ghost var b := buffer[..];
      var base := 2 * blockLen;
      forall i | 0 <= i < |data| { buffer[base + i] := data[i]; }
      forall src: seq<char> | data <= src ensures BlockRead(b, buffer[..], blockLen, src, |data|) {
        FilledBlock(b, buffer[..], blockLen, data, src);
      }
    }

    // reader.start_read on the third block.
    method BeginRead()
      requires Collected(async, origin, source) && blockLen > 0
      modifies this`async
      ensures Reading(async, origin, blockLen, source) && SawEnd(async) == old(SawEnd(async))
    {
      hide Reading, Collected, SawEnd;
      StartGives(async, origin, blockLen, source);
      async := Do(async, StartRead(blockLen));
    }

    /**
      When next_line calls finish_read, no interleaving of the call with the worker waits on a worker
      that has exited, and while it sleeps the worker's next step ends the wait.
     */
    lemma NextNeverStuck(steps: seq<Step>)
      requires Valid() && readerValid && blockLen <= dataBegin < dataEnd
      requires Call(async, steps) && !After(async, steps).caller.Idle?
      ensures var t := After(async, steps);
              && !Stuck(t)
              && (t.caller.Sleeping? ==>
                  t.worker.Ready? && Do(t, WorkerTest).caller.Finishing? && Do(t, WorkerTest).readCount != -1)
    {
      CallNeverStuck(async, steps, origin);
    }

    /**
      The block moves at the start of next_line.  They keep the text and bring its start into the
      first block.
     */
    method Slide()
      requires Valid() && dataBegin < dataEnd
      modifies this`dataBegin, this`dataEnd, this`source, this`async, buffer
      ensures Valid() && dataBegin < dataEnd && dataBegin < blockLen && Rest() == old(Rest())
    {
      hide BlockMoved, BlockRead, Text, Reading, Fair, SawEnd;
      if dataBegin >= blockLen {
        var n := blockLen;
        ghost var b0 := buffer[..];
        MoveBlock(n, 0);
        ghost var b1 := buffer[..];
        SlidText(b0, b1, n, dataBegin, dataEnd, source);
        dataBegin, dataEnd := dataBegin - n, dataEnd - n;
        if readerValid {
          Refill();
        }
      }
    }

    // The read is waited for, and its block follows the first one.
    method Refill()
      requires blockLen > 0 && buffer.Length == 3 * blockLen && Fair(scheduler)
      requires readerValid && Reading(async, origin, blockLen, source) && !SawEnd(async)
      requires dataBegin < dataEnd <= blockLen && (source != [] ==> dataEnd == blockLen)
      modifies this`dataEnd, this`source, this`async, buffer
      ensures Valid() && dataBegin < dataEnd && Rest() == old(Rest())
    {
      hide BlockMoved, BlockRead, Text, Reading, Collected, Fair, SawEnd;
      var n := blockLen;
      ghost var b1, src := buffer[..], source;
      var r := FinishRead();
      ghost var b2 := buffer[..];
      MoveBlock(2 * n, n);
      FilledText(b1, b2, buffer[..], n, dataBegin, dataEnd, r, src);
      dataEnd := dataEnd + r;
      BeginRead();
    }

    method MoveBlock(from: nat, to: nat)
      requires from + blockLen <= buffer.Length && to + blockLen <= from
      modifies buffer
      ensures BlockMoved(old(buffer[..]), buffer[..], blockLen, from, to)
    {
      forall i | 0 <= i < blockLen { buffer[to + i] := buffer[from + i]; }
    }

    /**
      next_line: the first line of the text that is left, without its line break, terminated by a
      NUL in the buffer; nothing when no text is left; an error exactly when the line and its
      newline do not fit a block.
     */
    method Next() returns (line: NextLine)
      requires Valid()
      modifies this, buffer
      ensures Valid()
      ensures line.EndOfFile? <==> old(Rest()) == []
      ensures line.LengthLimitExceeded? <==> old(Rest()) != [] && LineEnd(old(Rest())) >= blockLen
      ensures line.LengthLimitExceeded? ==> line.fileLine == fileLine == old(fileLine) + 1 && Rest() == old(Rest())
      ensures line.EndOfFile? ==> Rest() == [] && fileLine == old(fileLine)
      ensures line.Line? ==> Rest() == AfterLine(old(Rest())) && fileLine == old(fileLine) + 1
      ensures line.Line? ==> line.begin + line.length < dataBegin
      ensures line.Line? ==> Terminated(buffer[..], line.begin, line.length, Chomp(old(Rest())[..LineEnd(old(Rest()))]))
    {
      hide LineEnd, AfterLine, Chomp, Text, Terminated, ThirdBlockKept, Reading, Fair, SawEnd;
      EmptyText(buffer[..], dataBegin, dataEnd, source);
      if dataBegin == dataEnd {
        return EndOfFile;
      }
      fileLine := fileLine + 1;
      Slide();
      var lineEnd := FindNewline();
      if lineEnd - dataBegin + 1 > blockLen {
        return LengthLimitExceeded(fileLine);
      }
      line := Cut(lineEnd);
    }

    // The scan for the newline, within the window.
    method FindNewline() returns (lineEnd: nat)
      requires Valid() && dataBegin < dataEnd && dataBegin < blockLen
      ensures dataBegin <= lineEnd <= dataEnd
      ensures lineEnd - dataBegin < blockLen ==> lineEnd - dataBegin == LineEnd(Rest())
      ensures lineEnd - dataBegin < blockLen && lineEnd == dataEnd ==> source == []
      ensures lineEnd < dataEnd ==> buffer[lineEnd] == '\n'
      ensures lineEnd - dataBegin >= blockLen ==> LineEnd(Rest()) >= blockLen
    {
      hide Reading, Fair, SawEnd;
      lineEnd := dataBegin;
      while buffer[lineEnd] != '\n' && lineEnd != dataEnd
        invariant dataBegin <= lineEnd <= dataEnd
        invariant '\n' !in buffer[dataBegin..lineEnd]
        decreases dataEnd - lineEnd
      {
        lineEnd := lineEnd + 1;
      }
      ghost var k := lineEnd - dataBegin;
      assert Rest()[..k] == buffer[dataBegin..lineEnd];
      if lineEnd < dataEnd || source == [] {
        assert lineEnd < dataEnd ==> Rest()[k] == buffer[lineEnd];
        LineEndIs(Rest(), k);
      } else {
        NoneBefore(Rest(), k);
      }
    }

    // The end of next_line: terminate the line, drop a carriage return, step over it.
    method Cut(lineEnd: nat) returns (line: NextLine)
      requires Valid() && dataBegin < blockLen && dataBegin <= lineEnd <= dataEnd && lineEnd - dataBegin < blockLen
      requires lineEnd == dataEnd ==> source == []
      requires lineEnd - dataBegin == LineEnd(Rest())
      modifies this`dataBegin, this`dataEnd, buffer
      ensures Valid() && Rest() == AfterLine(old(Rest()))
      ensures line.Line? && line.begin + line.length < dataBegin
      ensures Terminated(buffer[..], line.begin, line.length, Chomp(old(Rest())[..LineEnd(old(Rest()))]))
      ensures ThirdBlockKept(old(buffer[..]), buffer[..], blockLen)
    {
      hide LineEnd, Chomp, AfterLine, Text, Terminated, ThirdBlockKept, Reading, Fair, SawEnd, WorkerGone, Window;
      var begin, end := dataBegin, dataEnd;
      var end' := if lineEnd == end then end + 1 else end;
      WindowCut(begin, end, blockLen, source != [], WorkerGone(), lineEnd);
      var length := CutLine(begin, lineEnd, end, end');
      dataBegin, dataEnd := lineEnd + 1, end';
      line := Line(begin, length);
    }

    // The line in the buffer, and the text behind it.
    method CutLine(begin: nat, lineEnd: nat, ghost end: nat, ghost end': nat) returns (length: nat)
      requires buffer.Length == 3 * blockLen && begin <= lineEnd <= end <= end' <= 2 * blockLen && lineEnd < end'
      requires end' == (if lineEnd == end then end + 1 else end) && (lineEnd == end ==> source == [])
      requires LineEnd(Text(buffer[..], begin, end, source)) == lineEnd - begin
      modifies buffer
      ensures begin + length <= lineEnd
      ensures var text := old(Text(buffer[..], begin, end, source));
              && Terminated(buffer[..], begin, length, Chomp(text[..lineEnd - begin]))
              && Text(buffer[..], lineEnd + 1, end', source) == AfterLine(text)
      ensures ThirdBlockKept(old(buffer[..]), buffer[..], blockLen)
    {
      hide *;
      ghost var b := buffer[..];
      length := Terminate(begin, lineEnd);
      CutText(b, buffer[..], begin, lineEnd, end, length, source);
      Kept(b, buffer[..], blockLen, lineEnd, begin + length);
    }

    // A NUL for the newline, and one for a carriage return before it.
    method Terminate(begin: nat, lineEnd: nat) returns (length: nat)
      requires begin <= lineEnd < buffer.Length
      modifies buffer
      ensures length == CutLength(old(buffer[..]), begin, lineEnd)
      ensures NulsAt(old(buffer[..]), buffer[..], lineEnd, begin + length)
    {
      buffer[lineEnd] := '\0';
      length := lineEnd - begin;
      if lineEnd != begin && buffer[lineEnd - 1] == '\r' {
        buffer[lineEnd - 1] := '\0';
        length := length - 1;
      }
    }
  }

  // The length of the line from begin to lineEnd without a carriage return.
  function CutLength(b: seq<char>, begin: nat, lineEnd: nat): (r: nat)
    requires begin <= lineEnd <= |b|
    ensures begin + r <= lineEnd
  {
    lineEnd - begin - (if begin < lineEnd && b[lineEnd - 1] == '\r' then 1 else 0)
  }

  // b' is b with NULs at positions i and j.
  ghost predicate NulsAt(b: seq<char>, b': seq<char>, i: nat, j: nat) {
    i < |b| && j < |b| && b' == b[i := '\0'][j := '\0']
  }

  // What is left in the buffer once the line is cut off.
  lemma CutText(b: seq<char>, b': seq<char>, begin: nat, lineEnd: nat, end: nat, length: nat, source: seq<char>)
    requires begin <= lineEnd <= end < |b| && (lineEnd == end ==> source == [])
    requires LineEnd(Text(b, begin, end, source)) == lineEnd - begin
    requires length == CutLength(b, begin, lineEnd)
    requires NulsAt(b, b', lineEnd, begin + length)
    ensures var text := Text(b, begin, end, source);
            && Terminated(b', begin, length, Chomp(text[..LineEnd(text)]))
            && Text(b', lineEnd + 1, if lineEnd == end then end + 1 else end, source) == AfterLine(text)
  {
    hide LineEnd, Text;
    TextPrefix(b, begin, end, source, lineEnd - begin);
    assert b'[begin..begin + length] == b[begin..lineEnd][..length];
    if lineEnd < end {
      AfterCut(b, b', begin, lineEnd, end, source);
    } else {
      EmptyText(b', lineEnd + 1, end + 1, source);
      TextLength(b, begin, end, source);
    }
  }

  lemma TextPrefix(b: seq<char>, begin: nat, end: nat, source: seq<char>, k: nat)
    requires begin <= begin + k <= end <= |b|
    ensures |Text(b, begin, end, source)| == end - begin + |source|
    ensures Text(b, begin, end, source)[..k] == b[begin..begin + k]
  {}

  lemma TextLength(b: seq<char>, begin: nat, end: nat, source: seq<char>)
    requires begin <= end <= |b|
    ensures |Text(b, begin, end, source)| == end - begin + |source|
  {}

  lemma Kept(b: seq<char>, b': seq<char>, n: nat, i: nat, j: nat)
    requires |b| == 3 * n && i < 2 * n && j < 2 * n && NulsAt(b, b', i, j)
    ensures ThirdBlockKept(b, b', n)
  {}

  lemma AfterCut(b: seq<char>, b': seq<char>, begin: nat, lineEnd: nat, end: nat, source: seq<char>)
    requires |b'| == |b| && begin <= lineEnd < end <= |b| && b'[lineEnd + 1..] == b[lineEnd + 1..]
    ensures lineEnd - begin < |Text(b, begin, end, source)|
    ensures Text(b, begin, end, source)[lineEnd - begin + 1..] == Text(b', lineEnd + 1, end, source)
  {
    assert b'[lineEnd + 1..end] == b'[lineEnd + 1..][..end - lineEnd - 1];
    assert b[lineEnd + 1..end] == b[lineEnd + 1..][..end - lineEnd - 1];
  }

  /**
    Calling next_line until it has nothing more to give returns the lines of the input, whatever the
    block length and however the worker is scheduled, up to the first line that does not fit a block.
   */
  method ReadAll(blockLen: nat, input: seq<char>, scheduler: State -> seq<Step>)
    returns (lines: seq<seq<char>>, complete: bool)
    requires blockLen >= 2 && Fair(scheduler)
    ensures lines == FittingLines(SkipBom(input), blockLen)
    ensures complete <==> LinesFit(SkipBom(input), blockLen)
    ensures complete ==> lines == Lines(SkipBom(input))
  {
    hide Lines, LineEnd, Chomp, SkipBom, AfterLine, LinesFit, FittingLines, Terminated, Text, Reading, Fair, SawEnd;
    var reader := new LineReader(blockLen, input, scheduler);
    ghost var text := SkipBom(input);
    lines := [];
    while true
      invariant reader.Valid() && fresh(reader) && fresh(reader.buffer) && reader.blockLen == blockLen
      invariant lines + FittingLines(reader.Rest(), blockLen) == FittingLines(text, blockLen)
      invariant LinesFit(reader.Rest(), blockLen) <==> LinesFit(text, blockLen)
      decreases |reader.Rest()|
    {
      ghost var rest := reader.Rest();
      FitStep(rest, blockLen);
      var line := reader.Next();
      match line
      case EndOfFile =>
        if LinesFit(text, blockLen) { AllFit(text, blockLen); }
        return lines, true;
      case LengthLimitExceeded(_) =>
        return lines, false;
      case Line(begin, length) =>
        var first := CopyLine(reader.buffer, begin, length, Chomp(rest[..LineEnd(rest)]));
        Append(lines, first, FittingLines(AfterLine(rest), blockLen));
        lines := lines + [first];
    }
  }

  method CopyLine(a: array<char>, begin: nat, length: nat, ghost line: seq<char>) returns (r: seq<char>)
    requires Terminated(a[..], begin, length, line)
    ensures r == line
  {
    assert a[..][begin..begin + length] == a[begin..begin + length];
    r := a[begin..begin + length];
  }

  lemma Append<T>(s: seq<T>, x: T, t: seq<T>)
    ensures s + ([x] + t) == (s + [x]) + t
  {}

  lemma FitStep(s: seq<char>, blockLen: nat)
    ensures s == [] || LineEnd(s) >= blockLen ==> FittingLines(s, blockLen) == []
    ensures s == [] ==> LinesFit(s, blockLen)
    ensures s != [] ==> |AfterLine(s)| < |s|
    ensures s != [] && LineEnd(s) >= blockLen ==> !LinesFit(s, blockLen)
    ensures s != [] && LineEnd(s) < blockLen ==>
              && FittingLines(s, blockLen) == [Chomp(s[..LineEnd(s)])] + FittingLines(AfterLine(s), blockLen)
              && LinesFit(s, blockLen) == LinesFit(AfterLine(s), blockLen)
  {}
}
