/**
  Reading rows: next_line and parse_line one after the other on the same buffer, and the round trip of
  a whole file through them.
 */
module CsvRows {
  import opened Options
  import opened CsvAsync
  import opened CsvLines
  import opened CsvQuote
  import opened CsvParse

  // A line as a C string ends at its first NUL.
  function UpToNul(s: seq<char>): (r: seq<char>)
    ensures |r| <= |s| && '\0' !in r && r == s[..|r|]
    ensures |r| < |s| ==> s[|r|] == '\0'
  {
    if s == [] || s[0] == '\0' then [] else [s[0]] + UpToNul(s[1..])
  }

  lemma UpToNulPlain(s: seq<char>)
    requires '\0' !in s
    ensures UpToNul(s) == s
  {}

  // The C string at the start of a line that the reader returned.
  lemma LineIsString(b: seq<char>, begin: nat, length: nat, line: seq<char>)
    requires Terminated(b, begin, length, line)
    ensures var z := begin + |UpToNul(line)|;
            z <= begin + length && LineAt(b, begin, z) && b[begin..z] == UpToNul(line)
  {
    hide UpToNul;
    var t := UpToNul(line);
    var z := begin + |t|;
    assert |line| == length;
    SubSlice(b, begin, begin + length, 0, |t|);
    forall i | begin <= i < z ensures b[i] != '\0' { assert t[i - begin] == b[begin..z][i - begin] == b[i]; }
    if |t| < |line| { assert b[begin..begin + length][|t|] == b[begin + |t|]; }
  }

  datatype RowResult = NoRow | Row | TooLong(fileLine: nat) | Bad(error: ParseError)

  // The line that a row is parsed from.
  ghost function FirstText(text: seq<char>): seq<char> {
    UpToNul(Chomp(text[..LineEnd(text)]))
  }

  /**
    read_row up to the conversion of the columns: the next line is split in place, in the reader's own
    buffer, and what the reader has still to return is untouched.
   */
  method ReadRow(reader: LineReader, p: Policy, order: seq<int>, sorted: array<nat>) returns (r: RowResult)
    requires reader.Valid() && PolicyOk(p)
    requires forall i :: 0 <= i < |order| ==> -1 <= order[i] < sorted.Length
    modifies reader, reader.buffer, sorted
    ensures reader.Valid()
    ensures r.NoRow? <==> old(reader.Rest()) == []
    ensures r.TooLong? <==> old(reader.Rest()) != [] && LineEnd(old(reader.Rest())) >= reader.blockLen
    ensures r.Row? || r.Bad? ==>
              var text := old(reader.Rest());
              && reader.Rest() == AfterLine(text)
              && match Split(p, Some(FirstText(text)), |order|)
                 case Error(e) => r == Bad(e)
                 case Columns(cols) => r == Row && Arranged(p, reader.buffer[..], sorted[..], cols, order)
  {
    hide LineEnd, AfterLine, Chomp, Split, Arranged, Terminated, LineAt, Text, Reading, Fair, SawEnd, FirstText;
    ghost var text := reader.Rest();
    var line := reader.Next();
    match line
    case EndOfFile =>
      r := NoRow;
    case LengthLimitExceeded(n) =>
      r := TooLong(n);
    case Line(begin, length) =>
      ghost var b := reader.buffer[..];
      FirstTextIs(text);
      LineIsString(b, begin, length, Chomp(text[..LineEnd(text)]));
      ghost var z := begin + |FirstText(text)|;
      var error := ParseLine(p, reader.buffer, begin, z, order, sorted);
      RestUntouched(b, reader.buffer[..], begin, z, reader.dataBegin, reader.dataEnd, reader.source);
      r := match error case None => Row case Some(e) => Bad(e);
  }

  lemma FirstTextIs(text: seq<char>)
    ensures FirstText(text) == UpToNul(Chomp(text[..LineEnd(text)]))
  {}

  lemma RestUntouched(b: seq<char>, b': seq<char>, begin: nat, z: nat, i: nat, j: nat, source: seq<char>)
    requires AroundKept(b, b', begin, z) && z < i <= j <= |b|
    ensures Text(b', i, j, source) == Text(b, i, j, source)
  {
    SubSlice(b', z + 1, |b'|, i - z - 1, j - z - 1);
    SubSlice(b, z + 1, |b|, i - z - 1, j - z - 1);
    assert b'[z + 1..|b'|] == b'[z + 1..] && b[z + 1..|b|] == b[z + 1..];
  }

  // ---------- all rows ----------

  datatype Table = Rows(rows: seq<seq<seq<char>>>) | LineTooLong | BadRow(error: ParseError)

  function Above(row: seq<seq<char>>, t: Table): Table {
    match t case Rows(rows) => Rows([row] + rows) case _ => t
  }

  // What a file of m columns stands for.
  ghost function TableOf(p: Policy, m: nat, text: seq<char>, blockLen: nat): Table
    decreases |text|
  {
    if text == [] then Rows([])
    else if LineEnd(text) >= blockLen then LineTooLong
    else
      match Split(p, Some(FirstText(text)), m)
      case Error(e) => BadRow(e)
      case Columns(cols) => Above(Fields(p, cols), TableOf(p, m, AfterLine(text), blockLen))
  }

  // The string at position i, read up to its NUL.
  method ReadString(a: array<char>, i: nat, ghost t: seq<char>) returns (s: seq<char>)
    requires StringAt(a[..], i, t) && '\0' !in t
    ensures s == t
  {
    var j := i;
    assert forall k :: 0 <= k < |t| ==> t[k] == a[i + k] by {
      forall k | 0 <= k < |t| ensures t[k] == a[i + k] { assert a[..][i..i + |t|][k] == a[i + k]; }
    }
    while a[j] != '\0'
      invariant i <= j <= i + |t|
      decreases i + |t| - j
    {
      assert a[j] == a[i + (j - i)] && t[j - i] in t;
      j := j + 1;
    }
    s := a[i..j];
    assert a[i..j] == a[..][i..j];
  }

  // ---------- fields have no NUL ----------

  lemma {:induction false} CollapseChars(q: char, s: seq<char>, c: char)
    requires c !in s
    ensures c !in Collapse(q, s)
    decreases |s|
  {
    if s == [] {
    } else if |s| >= 2 && s[0] == q && s[1] == q {
      CollapseChars(q, s[2..], c);
      assert s[0] in s;
    } else {
      CollapseChars(q, s[1..], c);
      assert s[0] in s;
    }
  }

  lemma {:induction false} DropFrontChars(t: set<char>, s: seq<char>, c: char)
    requires c !in s
    ensures c !in DropFront(t, s)
    decreases |s|
  {
    if s != [] && s[0] in t { DropFrontChars(t, s[1..], c); }
  }

  lemma {:induction false} DropBackChars(t: set<char>, s: seq<char>, c: char)
    requires c !in s
    ensures c !in DropBack(t, s)
    decreases |s|
  {
    if s != [] && s[|s| - 1] in t { DropBackChars(t, s[..|s| - 1], c); }
  }

  lemma FieldChars(p: Policy, s: seq<char>, c: char)
    requires c !in s
    ensures c !in Field(p, s)
  {
    DropFrontChars(p.trim, s, c);
    DropBackChars(p.trim, DropFront(p.trim, s), c);
    var t := Trimmed(p, s);
    if |t| >= 2 { CollapseChars(p.quote, t[1..|t| - 1], c); }
  }

  lemma {:induction false} SplitChars(p: Policy, s: Option<seq<char>>, m: nat, c: char)
    requires s.Some? ==> c !in s.value
    ensures var r := Split(p, s, m); r.Columns? ==> |r.cols| == m && forall i :: 0 <= i < m ==> c !in r.cols[i]
    decreases m
  {
    if m > 0 && s.Some? && ColumnEnd(p, s.value, false).Some? {
      var e := ColumnEnd(p, s.value, false).value;
      SplitChars(p, if e == |s.value| then None else Some(s.value[e + 1..]), m - 1, c);
    }
  }

  // The fields of a row, copied out of the buffer.
  method CopyFields(p: Policy, a: array<char>, sorted: array<nat>, m: nat, ghost cols: seq<seq<char>>)
    returns (row: seq<seq<char>>)
    requires Arranged(p, a[..], sorted[..], cols, Identity(m)) && forall i :: 0 <= i < |cols| ==> '\0' !in cols[i]
    ensures row == Fields(p, cols)
  {
    hide Field, StringAt;
    row := [];
    for i := 0 to m
      invariant |row| == i && forall j :: 0 <= j < i ==> row[j] == Field(p, cols[j])
    {
      assert LastFor(Identity(m), m, i);
      assert Identity(m)[i] == i;
      FieldChars(p, cols[i], '\0');
      var s := ReadString(a, sorted[i], Field(p, cols[i]));
      row := row + [s];
    }
  }

  function Identity(m: nat): (r: seq<int>)
    ensures |r| == m && forall i :: 0 <= i < m ==> r[i] == i
  {
    seq(m, i requires 0 <= i < m => i)
  }

  /**
    Reading a file of m columns to its end with next_line and parse_line, however the worker is
    scheduled and wherever the block boundaries fall.
   */
  method ReadTable(p: Policy, m: nat, blockLen: nat, input: seq<char>, scheduler: State -> seq<Step>) returns (t: Table)
    requires PolicyOk(p) && blockLen >= 2 && Fair(scheduler)
    ensures t == TableOf(p, m, SkipBom(input), blockLen)
  {
    hide Fair, SkipBom, Split, TableOf, LineEnd, AfterLine, Arranged, Reading, FirstText, Text, Fields;
    var reader := new LineReader(blockLen, input, scheduler);
    ghost var text := SkipBom(input);
    var order, sorted := Identity(m), new nat[m];
    var rows := [];
    while true
      invariant reader.Valid() && fresh(reader) && fresh(reader.buffer) && fresh(sorted) && sorted.Length == m
      invariant reader.blockLen == blockLen
      invariant OnTop(rows, TableOf(p, m, reader.Rest(), blockLen)) == TableOf(p, m, text, blockLen)
      decreases |reader.Rest()|
    {
      ghost var rest := reader.Rest();
      TableStep(p, m, rest, blockLen);
      var r := ReadRow(reader, p, order, sorted);
      match r
      case NoRow =>
        return Rows(rows);
      case TooLong(_) =>
        OnTopError(rows, LineTooLong);
        return LineTooLong;
      case Bad(e) =>
        OnTopError(rows, BadRow(e));
        return BadRow(e);
      case Row =>
        ghost var cols := Split(p, Some(FirstText(rest)), m).cols;
        FirstTextPlain(rest);
        SplitChars(p, Some(FirstText(rest)), m, '\0');
        var row := CopyFields(p, reader.buffer, sorted, m, cols);
        OnTopMore(rows, row, TableOf(p, m, AfterLine(rest), blockLen));
        rows := rows + [row];
    }
  }

  ghost function OnTop(rows: seq<seq<seq<char>>>, t: Table): Table {
    match t case Rows(more) => Rows(rows + more) case _ => t
  }

  lemma OnTopMore(rows: seq<seq<seq<char>>>, row: seq<seq<char>>, t: Table)
    ensures OnTop(rows, Above(row, t)) == OnTop(rows + [row], t)
  {
    if t.Rows? { assert rows + ([row] + t.rows) == (rows + [row]) + t.rows; }
  }

  lemma OnTopError(rows: seq<seq<seq<char>>>, t: Table)
    requires !t.Rows?
    ensures OnTop(rows, t) == t
  {}

  lemma FirstTextPlain(text: seq<char>)
    ensures '\0' !in FirstText(text)
  {}

  lemma TableStep(p: Policy, m: nat, text: seq<char>, blockLen: nat)
    ensures text == [] ==> TableOf(p, m, text, blockLen) == Rows([])
    ensures text != [] && LineEnd(text) >= blockLen ==> TableOf(p, m, text, blockLen) == LineTooLong
    ensures text != [] && LineEnd(text) < blockLen ==>
              && |AfterLine(text)| < |text|
              && TableOf(p, m, text, blockLen) ==
                 match Split(p, Some(FirstText(text)), m)
                 case Error(e) => BadRow(e)
                 case Columns(cols) => Above(Fields(p, cols), TableOf(p, m, AfterLine(text), blockLen))
  {}

  // ---------- the round trip of a file ----------

  // Rows of m fields, in quotes or bare, that a line can carry, each short enough for a block when written.
  ghost predicate Writable(p: Policy, m: nat, rows: seq<seq<Cell>>, blockLen: nat) {
    m > 0 && forall r :: 0 <= r < |rows| ==> RowOk(p, m, rows[r], blockLen)
  }

  ghost predicate RowOk(p: Policy, m: nat, row: seq<Cell>, blockLen: nat)
    requires m > 0
  {
    && |row| == m && (forall i :: 0 <= i < m ==> CellOk(p, row[i]) && PlainCell(row[i]))
    && PlainEnd(EncodeRow(p, row)) && |EncodeRow(p, row)| < blockLen
  }

  // A carriage return at the end would be taken for part of the line break.
  predicate PlainEnd(line: seq<char>) {
    line == [] || line[|line| - 1] != '\r'
  }

  // The separator and the quote can be told from each other, from NULs and from line breaks.
  predicate Distinguishable(p: Policy) {
    PolicyOk(p) && p.sep != '\n' && p.quote != '\n'
  }

  function Texts(row: seq<Cell>): (r: seq<seq<char>>)
    ensures |r| == |row| && forall i :: 0 <= i < |row| ==> r[i] == row[i].text
  {
    seq(|row|, i requires 0 <= i < |row| => row[i].text)
  }

  function AllTexts(rows: seq<seq<Cell>>): (r: seq<seq<seq<char>>>)
    ensures |r| == |rows| && forall i :: 0 <= i < |rows| ==> r[i] == Texts(rows[i])
  {
    seq(|rows|, i requires 0 <= i < |rows| => Texts(rows[i]))
  }

  function WriteFile(p: Policy, rows: seq<seq<Cell>>): seq<char>
    requires forall r :: 0 <= r < |rows| ==> rows[r] != []
  {
    if rows == [] then [] else EncodeRow(p, rows[0]) + ['\n'] + WriteFile(p, rows[1..])
  }

  lemma {:induction false} FileRoundTrip(p: Policy, m: nat, rows: seq<seq<Cell>>, blockLen: nat)
    requires Distinguishable(p) && Writable(p, m, rows, blockLen)
    ensures forall r :: 0 <= r < |rows| ==> rows[r] != []
    ensures TableOf(p, m, WriteFile(p, rows), blockLen) == Rows(AllTexts(rows))
    decreases |rows|
  {
    if rows == [] {
      assert WriteFile(p, rows) == [];
    } else {
      FirstRow(p, m, rows, blockLen);
      hide *;
      FileRoundTrip(p, m, rows[1..], blockLen);
      RowTable(p, m, rows[0], WriteFile(p, rows[1..]), blockLen);
      AboveRows(rows);
    }
  }

  lemma FirstRow(p: Policy, m: nat, rows: seq<seq<Cell>>, blockLen: nat)
    requires Writable(p, m, rows, blockLen) && rows != []
    ensures m > 0 && RowOk(p, m, rows[0], blockLen) && Writable(p, m, rows[1..], blockLen)
    ensures forall r :: 0 <= r < |rows| ==> rows[r] != []
    ensures WriteFile(p, rows) == EncodeRow(p, rows[0]) + ['\n'] + WriteFile(p, rows[1..])
  {
    hide CellOk, PlainCell, EncodeRow;
  }

  lemma AboveRows(rows: seq<seq<Cell>>)
    requires rows != []
    ensures Above(Texts(rows[0]), Rows(AllTexts(rows[1..]))) == Rows(AllTexts(rows))
  {
    assert AllTexts(rows) == [Texts(rows[0])] + AllTexts(rows[1..]);
  }

  lemma RowTable(p: Policy, m: nat, row: seq<Cell>, rest: seq<char>, blockLen: nat)
    requires Distinguishable(p) && m > 0 && RowOk(p, m, row, blockLen)
    ensures row != []
    ensures TableOf(p, m, EncodeRow(p, row) + ['\n'] + rest, blockLen)
         == Above(Texts(row), TableOf(p, m, rest, blockLen))
  {
    hide EncodeRow, Split, Field, CellOk, PlainCell;
    var line := EncodeRow(p, row);
    var text := line + ['\n'] + rest;
    EncodedIsPlain(p, row);
    RowRoundTrip(p, row);
    assert text[..|line|] == line;
    LineEndIs(text, |line|);
    assert AfterLine(text) == rest;
    UpToNulPlain(line);
    var cols := Split(p, Some(line), m).cols;
    assert Fields(p, cols) == Texts(row);
  }

  /**
    A file of rows whose fields are written in quotes or bare, read with next_line and parse_line, gives the
    fields that were written; a byte order mark before it does not matter.
   */
  method ReadBack(p: Policy, m: nat, rows: seq<seq<Cell>>, bom: bool, blockLen: nat, scheduler: State -> seq<Step>)
    returns (t: Table)
    requires Distinguishable(p) && Writable(p, m, rows, blockLen) && blockLen >= 2 && Fair(scheduler)
    requires !bom ==> !(['\U{EF}', '\U{BB}', '\U{BF}'] <= WriteFile(p, rows))
    ensures t == Rows(AllTexts(rows))
  {
    var text := WriteFile(p, rows);
    var mark := ['\U{EF}', '\U{BB}', '\U{BF}'];
    var input := if bom then mark + text else text;
    MarkSkipped(text);
    t := ReadTable(p, m, blockLen, input, scheduler);
    FileRoundTrip(p, m, rows, blockLen);
  }

  lemma MarkSkipped(text: seq<char>)
    ensures SkipBom(['\U{EF}', '\U{BB}', '\U{BF}'] + text) == text
    ensures !(['\U{EF}', '\U{BB}', '\U{BF}'] <= text) ==> SkipBom(text) == text
  {
    var mark := ['\U{EF}', '\U{BB}', '\U{BF}'];
    assert (mark + text)[..3] == mark && (mark + text)[3..] == text;
  }
}
