/**
  Parsing a whole line: columns are chopped off one by one, trimmed and unescaped in place.  A row of
  fields, each written in quotes or bare and padded with trim characters, is read back unchanged.
 */
module CsvParse {
  import opened CsvLines
  import opened Options
  import opened CsvQuote

  datatype ParseError = TooFewColumns | TooManyColumns | EscapedStringNotClosed

  datatype Parse = Columns(cols: seq<seq<char>>) | Error(error: ParseError)

  function Prepend(cols: seq<seq<char>>, r: Parse): Parse {
    match r case Error(e) => Error(e) case Columns(cs) => Columns(cols + cs)
  }

  // The raw columns of a line, when m of them are asked for.
  function Split(p: Policy, line: Option<seq<char>>, m: nat): Parse
    decreases m
  {
    if m == 0 then (if line.None? then Columns([]) else Error(TooManyColumns))
    else if line.None? then Error(TooFewColumns)
    else
      match ColumnEnd(p, line.value, false)
      case None => Error(EscapedStringNotClosed)
      case Some(e) =>
        Prepend([line.value[..e]], Split(p, if e == |line.value| then None else Some(line.value[e + 1..]), m - 1))
  }

  // What a raw column stands for.
  function Field(p: Policy, raw: seq<char>): seq<char> {
    Unescaped(p, Trimmed(p, raw))
  }

  // ---------- columns joined by separators ----------

  function Join(p: Policy, cols: seq<seq<char>>): seq<char>
    requires cols != []
  {
    if |cols| == 1 then cols[0] else cols[0] + [p.sep] + Join(p, cols[1..])
  }

  // Every quote is closed and every separator is inside quotes.
  predicate ClosedColumn(p: Policy, s: seq<char>) {
    ColumnEnd(p, s, false) == Some(|s|)
  }

  lemma {:induction false} EndOfFirst(p: Policy, s: seq<char>, rest: seq<char>, inside: bool)
    requires ColumnEnd(p, s, inside) == Some(|s|)
    ensures ColumnEnd(p, s + [p.sep] + rest, inside) == Some(|s|)
    decreases |s|
  {
    var t := s + [p.sep] + rest;
    if s != [] {
      assert t[1..] == s[1..] + [p.sep] + rest;
      EndOfFirst(p, s[1..], rest, inside != (s[0] == p.quote));
    }
  }

  lemma {:induction false} PrefixClosed(p: Policy, s: seq<char>, inside: bool)
    ensures var e := ColumnEnd(p, s, inside); e.Some? ==> ColumnEnd(p, s[..e.value], inside) == e
    decreases |s|
  {
    if s == [] {
    } else if !inside && s[0] == p.sep {
      assert s[..0] == [];
    } else {
      var inside' := inside != (s[0] == p.quote);
      var e := ColumnEnd(p, s[1..], inside');
      PrefixClosed(p, s[1..], inside');
      if e.Some? {
        var t := s[..e.value + 1];
        assert t[1..] == s[1..][..e.value] && t[0] == s[0];
      }
    }
  }

  /**
    Splitting succeeds exactly on m closed columns joined by separators, and gives those columns.
   */
  lemma {:induction false} SplitIff(p: Policy, s: seq<char>, m: nat, cols: seq<seq<char>>)
    requires PolicyOk(p)
    ensures Split(p, Some(s), m) == Columns(cols)
       <==> cols != [] && |cols| == m && s == Join(p, cols) && forall i :: 0 <= i < |cols| ==> ClosedColumn(p, cols[i])
    decreases m
  {
    if Split(p, Some(s), m) == Columns(cols) { SplitJoins(p, s, m, cols); }
    if cols != [] && |cols| == m && s == Join(p, cols) && forall i :: 0 <= i < |cols| ==> ClosedColumn(p, cols[i]) {
      JoinSplits(p, cols);
    }
  }

  lemma {:induction false} SplitJoins(p: Policy, s: seq<char>, m: nat, cols: seq<seq<char>>)
    requires Split(p, Some(s), m) == Columns(cols)
    ensures cols != [] && |cols| == m && s == Join(p, cols)
    ensures forall i :: 0 <= i < |cols| ==> ClosedColumn(p, cols[i])
    decreases m
  {
    hide ColumnEnd;
    var e := ColumnEnd(p, s, false).value;
    PrefixClosed(p, s, false);
    if e == |s| {
      assert s[..e] == s;
      assert m == 1;
    } else {
      var rest := Split(p, Some(s[e + 1..]), m - 1);
      SplitJoins(p, s[e + 1..], m - 1, rest.cols);
      JoinOne(p, s[..e], rest.cols);
      assert s == s[..e] + [p.sep] + s[e + 1..];
      assert cols == [s[..e]] + rest.cols;
    }
  }

  lemma JoinOne(p: Policy, col: seq<char>, cols: seq<seq<char>>)
    requires cols != []
    ensures Join(p, [col] + cols) == col + [p.sep] + Join(p, cols)
  {
    assert ([col] + cols)[1..] == cols;
  }

  lemma {:induction false} JoinSplits(p: Policy, cols: seq<seq<char>>)
    requires cols != [] && forall i :: 0 <= i < |cols| ==> ClosedColumn(p, cols[i])
    ensures Split(p, Some(Join(p, cols)), |cols|) == Columns(cols)
    decreases |cols|
  {
    hide ColumnEnd;
    var s := Join(p, cols);
    if |cols| == 1 {
      assert s[..|s|] == s;
      assert Split(p, None, 0) == Columns([]);
      assert cols == [s] + [];
    } else {
      var rest := Join(p, cols[1..]);
      EndOfFirst(p, cols[0], rest, false);
      Cut(cols[0], p.sep, rest);
      JoinSplits(p, cols[1..]);
      assert cols == [cols[0]] + cols[1..];
    }
  }

  lemma Cut(s: seq<char>, c: char, rest: seq<char>)
    ensures (s + [c] + rest)[..|s|] == s && (s + [c] + rest)[|s| + 1..] == rest
  {}

  // ---------- quoted fields ----------

  function Doubled(q: char, s: seq<char>): seq<char> {
    if s == [] then [] else (if s[0] == q then [q, q] else [s[0]]) + Doubled(q, s[1..])
  }

  // A field in quotes, its own quotes doubled.
  function Escape(p: Policy, field: seq<char>): seq<char> {
    [p.quote] + Doubled(p.quote, field) + [p.quote]
  }

  lemma {:induction false} CollapseDoubled(q: char, s: seq<char>)
    ensures Collapse(q, Doubled(q, s)) == s
  {
    if s != [] {
      var d, rest := Doubled(q, s), Doubled(q, s[1..]);
      CollapseDoubled(q, s[1..]);
      if s[0] == q {
        assert d[2..] == rest;
      } else {
        assert d[1..] == rest;
      }
    }
  }

  lemma {:induction false} DoubledInside(p: Policy, s: seq<char>)
    requires PolicyOk(p)
    ensures ColumnEnd(p, Doubled(p.quote, s) + [p.quote], true) == Some(|Doubled(p.quote, s)| + 1)
  {
    var d := Doubled(p.quote, s) + [p.quote];
    if s == [] {
      assert d[1..] == [];
    } else {
      var rest := Doubled(p.quote, s[1..]) + [p.quote];
      DoubledInside(p, s[1..]);
      if s[0] == p.quote {
        assert d[1..][1..] == rest && d[1..][0] == p.quote;
        assert ColumnEnd(p, d[1..], false) == Plus(ColumnEnd(p, rest, true), 1);
      } else {
        assert d[1..] == rest;
      }
    }
  }

  lemma EscapeCloses(p: Policy, field: seq<char>)
    requires PolicyOk(p)
    ensures ClosedColumn(p, Escape(p, field))
  {
    var s := Escape(p, field);
    DoubledInside(p, field);
    assert s[1..] == Doubled(p.quote, field) + [p.quote];
  }

  lemma EscapeRestores(p: Policy, field: seq<char>)
    requires p.quote !in p.trim
    ensures Field(p, Escape(p, field)) == field
  {
    var s := Escape(p, field);
    assert Trimmed(p, s) == s;
    assert s[1..|s| - 1] == Doubled(p.quote, field);
    CollapseDoubled(p.quote, field);
  }

  // ---------- fields in quotes or bare, with padding ----------

  // How a field is written: in quotes or bare, between characters that are trimmed away.
  datatype Cell = Cell(text: seq<char>, quoted: bool, before: seq<char>, after: seq<char>)

  function Write(p: Policy, c: Cell): seq<char> {
    c.before + (if c.quoted then Escape(p, c.text) else c.text) + c.after
  }

  // Neither separator nor quote.
  predicate Inert(p: Policy, s: seq<char>) {
    p.sep !in s && p.quote !in s
  }

  predicate Padding(p: Policy, s: seq<char>) {
    Inert(p, s) && forall i :: 0 <= i < |s| ==> s[i] in p.trim
  }

  // The ends are not trimmed away.
  predicate Firm(p: Policy, s: seq<char>) {
    s == [] || (s[0] !in p.trim && s[|s| - 1] !in p.trim)
  }

  predicate CellOk(p: Policy, c: Cell) {
    && Padding(p, c.before) && Padding(p, c.after)
    && if c.quoted then p.quote !in p.trim else Inert(p, c.text) && Firm(p, c.text)
  }

  lemma {:induction false} InertCloses(p: Policy, s: seq<char>)
    requires Inert(p, s)
    ensures ClosedColumn(p, s)
    decreases |s|
  {
    if s != [] { InertCloses(p, s[1..]); }
  }

  lemma {:induction false} ClosedAppend(p: Policy, s: seq<char>, t: seq<char>, inside: bool)
    requires ColumnEnd(p, s, inside) == Some(|s|)
    ensures ColumnEnd(p, s + t, inside) == Plus(ColumnEnd(p, t, false), |s|)
    decreases |s|
  {
    if s == [] {
      assert s + t == t;
    } else {
      assert (s + t)[1..] == s[1..] + t;
      ClosedAppend(p, s[1..], t, inside != (s[0] == p.quote));
    }
  }

  lemma CellCloses(p: Policy, c: Cell)
    requires PolicyOk(p) && CellOk(p, c)
    ensures ClosedColumn(p, Write(p, c))
  {
    hide ColumnEnd, Escape;
    var core := if c.quoted then Escape(p, c.text) else c.text;
    if c.quoted { EscapeCloses(p, c.text); } else { InertCloses(p, c.text); }
    InertCloses(p, c.before);
    InertCloses(p, c.after);
    ClosedAppend(p, c.before, core, false);
    ClosedAppend(p, c.before + core, c.after, false);
  }

  lemma {:induction false} FrontPadded(t: set<char>, pre: seq<char>, s: seq<char>)
    requires forall i :: 0 <= i < |pre| ==> pre[i] in t
    ensures DropFront(t, pre + s) == DropFront(t, s)
    decreases |pre|
  {
    if pre == [] {
      assert pre + s == s;
    } else {
      assert (pre + s)[1..] == pre[1..] + s;
      FrontPadded(t, pre[1..], s);
    }
  }

  lemma {:induction false} BackPadded(t: set<char>, s: seq<char>, post: seq<char>)
    requires forall i :: 0 <= i < |post| ==> post[i] in t
    ensures DropBack(t, s + post) == DropBack(t, s)
    decreases |post|
  {
    if post == [] {
      assert s + post == s;
    } else {
      var l := |post| - 1;
      assert (s + post)[..|s + post| - 1] == s + post[..l];
      BackPadded(t, s, post[..l]);
    }
  }

  lemma TrimPadded(p: Policy, pre: seq<char>, core: seq<char>, post: seq<char>)
    requires Padding(p, pre) && Padding(p, post) && Firm(p, core)
    ensures Trimmed(p, pre + core + post) == core
  {
    assert pre + core + post == pre + (core + post);
    FrontPadded(p.trim, pre, core + post);
    if core == [] {
      assert core + post == post && post + [] == post;
      FrontPadded(p.trim, post, []);
    } else {
      BackPadded(p.trim, core, post);
    }
  }

  lemma CellRestores(p: Policy, c: Cell)
    requires CellOk(p, c)
    ensures Field(p, Write(p, c)) == c.text
  {
    hide Trimmed;
    if c.quoted {
      TrimPadded(p, c.before, Escape(p, c.text), c.after);
      TrimPadded(p, [], Escape(p, c.text), []);
      assert [] + Escape(p, c.text) + [] == Escape(p, c.text);
      EscapeRestores(p, c.text);
    } else {
      TrimPadded(p, c.before, c.text, c.after);
    }
  }

  // A row as text.
  function EncodeRow(p: Policy, row: seq<Cell>): seq<char>
    requires row != []
  {
    Join(p, Written(p, row))
  }

  function Written(p: Policy, row: seq<Cell>): (r: seq<seq<char>>)
    ensures |r| == |row| && forall i :: 0 <= i < |row| ==> r[i] == Write(p, row[i])
  {
    seq(|row|, i requires 0 <= i < |row| => Write(p, row[i]))
  }

  /**
    The round trip of a row: chopping it gives its written fields, and each stands for the field that was
    written, in quotes or bare.
   */
  lemma RowRoundTrip(p: Policy, row: seq<Cell>)
    requires PolicyOk(p) && row != [] && forall i :: 0 <= i < |row| ==> CellOk(p, row[i])
    ensures var r := Split(p, Some(EncodeRow(p, row)), |row|);
            && r.Columns? && |r.cols| == |row|
            && forall i :: 0 <= i < |row| ==> Field(p, r.cols[i]) == row[i].text
  {
    hide CellOk, Write, Field, ColumnEnd;
    var cols := Written(p, row);
    forall i | 0 <= i < |cols| ensures ClosedColumn(p, cols[i]) && Field(p, cols[i]) == row[i].text {
      CellCloses(p, row[i]);
      CellRestores(p, row[i]);
    }
    JoinSplits(p, cols);
  }

  // ---------- lines with another number of columns ----------

  /**
    A line of k closed columns has too few when more are asked for, and too many when fewer are.
   */
  lemma {:induction false} SplitCounts(p: Policy, cols: seq<seq<char>>, m: nat)
    requires cols != [] && forall i :: 0 <= i < |cols| ==> ClosedColumn(p, cols[i])
    ensures m > |cols| ==> Split(p, Some(Join(p, cols)), m) == Error(TooFewColumns)
    ensures m < |cols| ==> Split(p, Some(Join(p, cols)), m) == Error(TooManyColumns)
    decreases |cols|
  {
    hide ColumnEnd;
    var s := Join(p, cols);
    if m > 0 && |cols| == 1 {
      assert s[..|s|] == s;
    } else if m > 0 {
      var rest := Join(p, cols[1..]);
      EndOfFirst(p, cols[0], rest, false);
      Cut(cols[0], p.sep, rest);
      SplitCounts(p, cols[1..], m - 1);
      if m == |cols| { JoinSplits(p, cols); }
    }
  }

  /**
    A line of k closed columns and one with an open quote has too many when at most k are asked for, and
    an open quote otherwise.
   */
  lemma {:induction false} SplitOpen(p: Policy, cols: seq<seq<char>>, open: seq<char>, m: nat)
    requires forall i :: 0 <= i < |cols| ==> ClosedColumn(p, cols[i])
    requires ColumnEnd(p, open, false) == None
    ensures Split(p, Some(Join(p, cols + [open])), m)
         == Error(if m <= |cols| then TooManyColumns else EscapedStringNotClosed)
    decreases |cols|
  {
    hide ColumnEnd;
    var all := cols + [open];
    if m > 0 && |cols| == 0 {
      assert Join(p, all) == open;
    } else if m > 0 {
      assert all[1..] == cols[1..] + [open];
      var rest := Join(p, all[1..]);
      EndOfFirst(p, cols[0], rest, false);
      Cut(cols[0], p.sep, rest);
      SplitOpen(p, cols[1..], open, m - 1);
    }
  }

  // ---------- the methods ----------

  /**
    chop_next_column: the column ends at the first separator outside quotes, which becomes a NUL, and
    the line goes on behind it; or the line is used up.  Nothing is written when a quote stays open.
   */
  method ChopNextColumn(p: Policy, a: array<char>, line: nat, ghost z: nat)
    returns (end: Option<nat>, next: Option<nat>)
    requires PolicyOk(p) && LineAt(a[..], line, z)
    modifies a
    ensures end == EndAt(p, old(a[..]), z, line, false)
    ensures end.None? ==> a[..] == old(a[..])
    ensures end.Some? ==> line <= end.value <= z && a[..] == old(a[..])[end.value := '\0']
    ensures end.Some? ==> next == if end.value == z then None else Some(end.value + 1)
  {
    hide EndAt;
    end := FindNextColumnEnd(p, a, line, z);
    next := None;
    if end.Some? && a[end.value] != '\0' {
      a[end.value] := '\0';
      next := Some(end.value + 1);
    }
  }

  // At position i the buffer has the string t.
  ghost predicate StringAt(b: seq<char>, i: nat, t: seq<char>) {
    i + |t| < |b| && b[i..i + |t|] == t && b[i + |t|] == '\0'
  }

  /**
    Trimming and unescaping one column in place.
   */
  method Extract(p: Policy, a: array<char>, begin: nat, end: nat) returns (start: nat)
    requires begin <= end < a.Length && a[end] == '\0'
    modifies a
    ensures begin <= start && start + |Field(p, old(a[begin..end]))| <= end
    ensures StringAt(a[..], start, Field(p, old(a[begin..end])))
    ensures OutsideKept(old(a[..]), a[..], begin, end)
  {
    hide Unescaped, Trimmed;
    ghost var b := a[..];
    var b1, e1 := Trim(p, a, begin, end);
    assert a[b1..e1] == b[b1..e1];
    ghost var c := a[..];
    var b2, e2 := Unescape(p, a, b1, e1);
    KeptTwice(b, c, a[..], begin, end, b1, e1);
    start := b2;
  }

  lemma KeptTwice(b: seq<char>, c: seq<char>, d: seq<char>, begin: nat, end: nat, b1: nat, e1: nat)
    requires begin <= b1 <= e1 <= end < |b| && b[end] == '\0' && c == b[e1 := '\0'] && OutsideKept(c, d, b1, e1)
    ensures OutsideKept(b, d, begin, end)
  {
    assert d[..begin] == d[..b1][..begin] && c[..begin] == c[..b1][..begin] == b[..begin];
    assert d[end..] == d[e1..][end - e1..] && c[end..] == c[e1..][end - e1..];
    assert c[end..] == b[end..];
  }

  // Writing a column in place leaves what is before it and what is behind its end alone.
  ghost predicate AroundKept(b: seq<char>, b': seq<char>, l: nat, e: nat) {
    l <= e < |b| && |b'| == |b| && b'[..l] == b[..l] && b'[e + 1..] == b[e + 1..]
  }

  /**
    One column of parse_line: chopped, and, unless it is skipped, trimmed and unescaped.
   */
  method NextColumn(p: Policy, a: array<char>, line: nat, ghost z: nat, skip: bool)
    returns (end: Option<nat>, next: Option<nat>, start: nat)
    requires PolicyOk(p) && LineAt(a[..], line, z)
    modifies a
    ensures end == EndAt(p, old(a[..]), z, line, false)
    ensures end.None? ==> a[..] == old(a[..])
    ensures end.Some? ==> line <= end.value <= z && AroundKept(old(a[..]), a[..], line, end.value)
    ensures end.Some? ==> next == if end.value == z then None else Some(end.value + 1)
    ensures end.Some? && !skip ==>
              var t := Field(p, old(a[line..end.value]));
              start + |t| <= end.value && StringAt(a[..], start, t)
  {
    hide EndAt, Field;
    ghost var b := a[..];
    end, next := ChopNextColumn(p, a, line, z);
    start := line;
    if end.Some? {
      ghost var c := a[..];
      Chopped(b, c, line, end.value);
      if !skip {
        assert a[line..end.value] == c[line..end.value];
        start := Extract(p, a, line, end.value);
        ExtractKept(b, c, a[..], line, end.value);
      }
    }
  }

  lemma Chopped(b: seq<char>, c: seq<char>, l: nat, e: nat)
    requires l <= e < |b| && c == b[e := '\0']
    ensures AroundKept(b, c, l, e) && c[l..e] == b[l..e]
  {}

  lemma ExtractKept(b: seq<char>, c: seq<char>, d: seq<char>, l: nat, e: nat)
    requires AroundKept(b, c, l, e) && OutsideKept(c, d, l, e)
    ensures AroundKept(b, d, l, e)
  {
    assert d[e + 1..] == d[e..][1..] && c[e + 1..] == c[e..][1..];
  }

  // The strings of the columns done so far are in place, before position `limit`.
  ghost predicate Placed(b: seq<char>, pos: seq<nat>, texts: seq<seq<char>>, order: seq<int>, limit: nat) {
    && |pos| == |texts| <= |order| && limit <= |b|
    && forall j :: 0 <= j < |pos| && order[j] != -1 ==> pos[j] + |texts[j]| < limit && StringAt(b, pos[j], texts[j])
  }

  lemma PlacedNext(b: seq<char>, b': seq<char>, pos: seq<nat>, texts: seq<seq<char>>, order: seq<int>, l: nat, e: nat,
                   start: nat, text: seq<char>)
    requires Placed(b, pos, texts, order, l) && AroundKept(b, b', l, e) && |pos| < |order|
    requires order[|pos|] != -1 ==> start + |text| <= e && StringAt(b', start, text)
    ensures Placed(b', pos + [start], texts + [text], order, e + 1)
  {
    forall j | 0 <= j < |pos| && order[j] != -1 ensures StringAt(b', pos[j], texts[j]) {
      var i := pos[j] + |texts[j]|;
      SubSlice(b', 0, l, pos[j], i);
      SubSlice(b, 0, l, pos[j], i);
      assert b'[i] == b'[..l][i] && b[i] == b[..l][i];
    }
  }

  // The last column meant for a place is where that place points.
  predicate LastFor(order: seq<int>, k: nat, j: nat) {
    j < k <= |order| && order[j] != -1 && forall i :: j < i < k ==> order[i] != order[j]
  }

  ghost predicate Pointed(sorted: seq<nat>, pos: seq<nat>, order: seq<int>) {
    && |pos| <= |order| && (forall i :: 0 <= i < |order| ==> -1 <= order[i] < |sorted|)
    && forall j: nat :: LastFor(order, |pos|, j) ==> sorted[order[j]] == pos[j]
  }

  lemma PointedNext(sorted: seq<nat>, pos: seq<nat>, order: seq<int>, start: nat)
    requires Pointed(sorted, pos, order) && |pos| < |order|
    ensures var i := order[|pos|]; Pointed(if i == -1 then sorted else sorted[i := start], pos + [start], order)
  {
    var i, k := order[|pos|], |pos|;
    var sorted' := if i == -1 then sorted else sorted[i := start];
    forall j: nat | LastFor(order, k + 1, j) ensures sorted'[order[j]] == (pos + [start])[j] {
      if j < k { assert LastFor(order, k, j) && order[k] != order[j]; }
    }
  }

  lemma LineGoesOn(b: seq<char>, b': seq<char>, l: nat, e: nat, z: nat)
    requires LineAt(b, l, z) && AroundKept(b, b', l, e) && e < z
    ensures LineAt(b', e + 1, z) && b'[e + 1..z] == b[l..z][e - l + 1..]
  {
    forall i | e + 1 <= i <= z ensures b'[i] == b[i] { assert b'[e + 1..][i - e - 1] == b[e + 1..][i - e - 1]; }
  }

  lemma PrependTwice(cols: seq<seq<char>>, col: seq<char>, r: Parse)
    ensures Prepend(cols, Prepend([col], r)) == Prepend(cols + [col], r)
  {
    if r.Columns? { assert cols + ([col] + r.cols) == (cols + [col]) + r.cols; }
  }

  function Fields(p: Policy, cols: seq<seq<char>>): (r: seq<seq<char>>)
    ensures |r| == |cols| && forall i :: 0 <= i < |cols| ==> r[i] == Field(p, cols[i])
  {
    seq(|cols|, i requires 0 <= i < |cols| => Field(p, cols[i]))
  }

  // Which columns are done, and what is left of the line.
  ghost predicate Parsing(p: Policy, b: seq<char>, z: nat, cur: Option<nat>, text: seq<char>, m: nat,
                          cols: seq<seq<char>>)
  {
    && |cols| <= m
    && (cur.Some? ==> LineAt(b, cur.value, z))
    && Split(p, Some(text), m) == Prepend(cols, Split(p, if cur.None? then None else Some(b[cur.value..z]), m - |cols|))
  }

  lemma ParsingNext(p: Policy, b: seq<char>, b': seq<char>, z: nat, l: nat, e: nat, text: seq<char>, m: nat,
                    cols: seq<seq<char>>)
    requires Parsing(p, b, z, Some(l), text, m, cols) && |cols| < m
    requires EndAt(p, b, z, l, false) == Some(e) && l <= e <= z && AroundKept(b, b', l, e)
    ensures Parsing(p, b', z, if e == z then None else Some(e + 1), text, m, cols + [b[l..e]])
  {
    hide ColumnEnd;
    var s := b[l..z];
    var next := if e == z then None else Some(s[e - l + 1..]);
    assert s[..e - l] == b[l..e];
    assert Split(p, Some(s), m - |cols|) == Prepend([b[l..e]], Split(p, next, m - |cols| - 1));
    PrependTwice(cols, b[l..e], Split(p, next, m - |cols| - 1));
    if e < z { LineGoesOn(b, b', l, e, z); }
  }

  lemma ParsingStops(p: Policy, b: seq<char>, z: nat, cur: Option<nat>, text: seq<char>, m: nat, cols: seq<seq<char>>)
    requires Parsing(p, b, z, cur, text, m, cols)
    ensures |cols| < m && cur.None? ==> Split(p, Some(text), m) == Error(TooFewColumns)
    ensures |cols| < m && cur.Some? && EndAt(p, b, z, cur.value, false).None? ==>
              Split(p, Some(text), m) == Error(EscapedStringNotClosed)
    ensures |cols| == m && cur.Some? ==> Split(p, Some(text), m) == Error(TooManyColumns)
    ensures |cols| == m && cur.None? ==> Split(p, Some(text), m) == Columns(cols)
  {
    hide ColumnEnd;
    assert cols + [] == cols;
  }

  // Every place that a column is meant for points at the field of the last such column.
  ghost predicate Arranged(p: Policy, b: seq<char>, sorted: seq<nat>, cols: seq<seq<char>>, order: seq<int>) {
    && |cols| == |order| && (forall i :: 0 <= i < |order| ==> -1 <= order[i] < |sorted|)
    && forall j: nat :: LastFor(order, |order|, j) ==> StringAt(b, sorted[order[j]], Field(p, cols[j]))
  }

  /**
    parse_line: the columns of the line, in place, with sorted_col pointing at them as col_order says;
    or the error that splitting meets.
   */
  method ParseLine(p: Policy, a: array<char>, line: nat, ghost z: nat, order: seq<int>, sorted: array<nat>)
    returns (error: Option<ParseError>)
    requires PolicyOk(p) && LineAt(a[..], line, z)
    requires forall i :: 0 <= i < |order| ==> -1 <= order[i] < sorted.Length
    modifies a, sorted
    ensures match Split(p, Some(old(a[line..z])), |order|)
            case Error(e) => error == Some(e)
            case Columns(cols) =>
              error == None && Arranged(p, a[..], sorted[..], cols, order)
    ensures AroundKept(old(a[..]), a[..], line, z)
  {
    assert line <= z < a.Length;
    NothingTouched(a[..], line, z);
    hide Arranged, Split, Progressed, LineAt, EndAt, AroundKept;
    ghost var b0 := a[..];
    ghost var text := a[line..z];
    ghost var cols: seq<seq<char>>, pos: seq<nat>, limit := [], [], line;
    var cur := Some(line);
    ProgressedStart(p, a[..], sorted[..], z, line, order);
    for k := 0 to |order|
      invariant |cols| == k && Progressed(p, a[..], sorted[..], z, cur, text, order, cols, pos, limit)
      invariant AroundKept(b0, a[..], line, z) && (cur.Some? ==> line <= cur.value)
    {
      ProgressedStops(p, a[..], sorted[..], z, cur, text, order, cols, pos, limit);
      if cur.None? {
        return Some(TooFewColumns);
      }
      var open;
      ghost var b, l := a[..], cur.value;
      open, cur, cols, pos, limit := ParseColumn(p, a, cur.value, z, order, k, sorted, text, cols, pos, limit);
      KeptMore(b0, b, a[..], line, z, l);
      if open {
        return Some(EscapedStringNotClosed);
      }
    }
    ProgressedStops(p, a[..], sorted[..], z, cur, text, order, cols, pos, limit);
    error := if cur.Some? then Some(TooManyColumns) else None;
  }

  /**
    The body of the loop of parse_line; `open` when a quote stays open.
   */
  method ParseColumn(p: Policy, a: array<char>, l: nat, ghost z: nat, order: seq<int>, k: nat, sorted: array<nat>,
                     ghost text: seq<char>, ghost cols: seq<seq<char>>, ghost pos: seq<nat>, ghost limit: nat)
    returns (open: bool, next: Option<nat>, ghost cols': seq<seq<char>>, ghost pos': seq<nat>, ghost limit': nat)
    requires PolicyOk(p) && k == |cols| < |order|
    requires Progressed(p, a[..], sorted[..], z, Some(l), text, order, cols, pos, limit)
    modifies a, sorted
    ensures AroundKept(old(a[..]), a[..], l, z) && (next.Some? ==> l <= next.value)
    ensures open ==> Split(p, Some(text), |order|) == Error(EscapedStringNotClosed)
    ensures !open ==> |cols'| == k + 1 && Progressed(p, a[..], sorted[..], z, next, text, order, cols', pos', limit')
  {
    hide Split, EndAt, Field, LineAt, AroundKept, StringAt, Parsing, Placed, Pointed;
    ghost var b, old_sorted := a[..], sorted[..];
    ParsingStops(p, b, z, Some(l), text, |order|, cols);
    ParsingLine(p, b, z, l, text, |order|, cols);
    PlaceInRange(old_sorted, pos, order, k);
    var end, start;
    end, next, start := NextColumn(p, a, l, z, order[k] == -1);
    open := end.None?;
    cols', pos', limit' := cols, pos, limit;
    if open {
      next := None;
      NothingTouched(b, l, z);
    } else {
      var e := end.value;
      KeptWithin(b, a[..], l, e, z);
      ParsingNext(p, b, a[..], z, l, e, text, |order|, cols);
      PlacedNext(b, a[..], pos, Fields(p, cols), order, l, e, start, Field(p, b[l..e]));
      PointedNext(old_sorted, pos, order, start);
      Point(sorted, order[k], start);
      FieldsAppend(p, cols, b[l..e]);
      cols', pos', limit' := cols + [b[l..e]], pos + [start], e + 1;
    }
  }

  lemma NothingTouched(b: seq<char>, l: nat, z: nat)
    requires l <= z < |b|
    ensures AroundKept(b, b, l, z)
  {}

  lemma KeptWithin(b: seq<char>, b': seq<char>, l: nat, e: nat, z: nat)
    requires AroundKept(b, b', l, e) && e <= z < |b|
    ensures AroundKept(b, b', l, z)
  {
    assert b'[z + 1..] == b'[e + 1..][z - e..] && b[z + 1..] == b[e + 1..][z - e..];
  }

  lemma KeptMore(b0: seq<char>, b: seq<char>, b': seq<char>, line: nat, z: nat, l: nat)
    requires AroundKept(b0, b, line, z) && AroundKept(b, b', l, z) && line <= l
    ensures AroundKept(b0, b', line, z)
  {
    assert b'[..line] == b'[..l][..line] && b[..line] == b[..l][..line];
  }

  // Everything about the columns done so far.
  ghost predicate Progressed(p: Policy, b: seq<char>, sorted: seq<nat>, z: nat, cur: Option<nat>, text: seq<char>,
                             order: seq<int>, cols: seq<seq<char>>, pos: seq<nat>, limit: nat) {
    && |cols| == |pos| <= |order|
    && Parsing(p, b, z, cur, text, |order|, cols)
    && Placed(b, pos, Fields(p, cols), order, limit) && Pointed(sorted, pos, order)
    && (cur.Some? ==> cur.value == limit)
  }

  lemma ProgressedStart(p: Policy, b: seq<char>, sorted: seq<nat>, z: nat, line: nat, order: seq<int>)
    requires LineAt(b, line, z) && forall i :: 0 <= i < |order| ==> -1 <= order[i] < |sorted|
    ensures Progressed(p, b, sorted, z, Some(line), b[line..z], order, [], [], line)
  {
    ParsingStart(p, b, z, line, |order|);
    hide Parsing;
    PlacedStart(b, order, line, sorted);
  }

  lemma ProgressedStops(p: Policy, b: seq<char>, sorted: seq<nat>, z: nat, cur: Option<nat>, text: seq<char>,
                        order: seq<int>, cols: seq<seq<char>>, pos: seq<nat>, limit: nat)
    requires Progressed(p, b, sorted, z, cur, text, order, cols, pos, limit)
    ensures |cols| < |order| && cur.None? ==> Split(p, Some(text), |order|) == Error(TooFewColumns)
    ensures |cols| == |order| && cur.Some? ==> Split(p, Some(text), |order|) == Error(TooManyColumns)
    ensures |cols| == |order| && cur.None? ==>
              Split(p, Some(text), |order|) == Columns(cols) && Arranged(p, b, sorted, cols, order)
  {
    hide Parsing, Placed, Pointed, Arranged, Split, EndAt;
    ParsingStops(p, b, z, cur, text, |order|, cols);
    if |cols| == |order| { Arrived(p, b, sorted, pos, cols, order, limit); }
  }

  lemma PlaceInRange(sorted: seq<nat>, pos: seq<nat>, order: seq<int>, k: nat)
    requires Pointed(sorted, pos, order) && k < |order|
    ensures -1 <= order[k] < |sorted|
  {}

  // sorted_col[i] = col_begin, unless the column is to be ignored.
  method Point(sorted: array<nat>, i: int, start: nat)
    requires -1 <= i < sorted.Length
    modifies sorted
    ensures sorted[..] == if i == -1 then old(sorted[..]) else old(sorted[..])[i := start]
  {
    if i != -1 {
      sorted[i] := start;
    }
  }

  lemma ParsingStart(p: Policy, b: seq<char>, z: nat, line: nat, m: nat)
    requires LineAt(b, line, z)
    ensures Parsing(p, b, z, Some(line), b[line..z], m, [])
  {
    var r := Split(p, Some(b[line..z]), m);
    if r.Columns? { assert [] + r.cols == r.cols; }
  }

  lemma PlacedStart(b: seq<char>, order: seq<int>, line: nat, sorted: seq<nat>)
    requires line <= |b| && forall i :: 0 <= i < |order| ==> -1 <= order[i] < |sorted|
    ensures Placed(b, [], [], order, line) && Pointed(sorted, [], order)
  {}

  lemma ParsingLine(p: Policy, b: seq<char>, z: nat, l: nat, text: seq<char>, m: nat, cols: seq<seq<char>>)
    requires Parsing(p, b, z, Some(l), text, m, cols)
    ensures LineAt(b, l, z) && l <= z < |b|
  {}

  lemma FieldsAppend(p: Policy, cols: seq<seq<char>>, col: seq<char>)
    ensures Fields(p, cols + [col]) == Fields(p, cols) + [Field(p, col)]
  {}

  lemma Arrived(p: Policy, b: seq<char>, sorted: seq<nat>, pos: seq<nat>, cols: seq<seq<char>>, order: seq<int>,
                limit: nat)
    requires Placed(b, pos, Fields(p, cols), order, limit) && Pointed(sorted, pos, order) && |pos| == |cols| == |order|
    ensures Arranged(p, b, sorted, cols, order)
  {
    hide Field, StringAt;
  }

  // ---------- from rows to a file and back ----------

  // Neither a NUL nor a newline, which a line cannot carry.
  predicate PlainField(f: seq<char>) {
    '\0' !in f && '\n' !in f
  }

  lemma {:induction false} DoubledChars(q: char, s: seq<char>, c: char)
    requires c !in s && c != q
    ensures c !in Doubled(q, s)
  {
    if s != [] { DoubledChars(q, s[1..], c); }
  }

  lemma {:induction false} JoinChars(p: Policy, cols: seq<seq<char>>, c: char)
    requires cols != [] && c != p.sep && forall i :: 0 <= i < |cols| ==> c !in cols[i]
    ensures c !in Join(p, cols)
    decreases |cols|
  {
    if |cols| > 1 { JoinChars(p, cols[1..], c); }
  }

  predicate PlainCell(c: Cell) {
    PlainField(c.text) && PlainField(c.before) && PlainField(c.after)
  }

  lemma EncodedIsPlain(p: Policy, row: seq<Cell>)
    requires row != [] && forall i :: 0 <= i < |row| ==> PlainCell(row[i])
    requires PolicyOk(p) && p.sep != '\n' && p.quote != '\n'
    ensures '\0' !in EncodeRow(p, row) && '\n' !in EncodeRow(p, row)
  {
    var cols := Written(p, row);
    forall i | 0 <= i < |cols| ensures '\0' !in cols[i] && '\n' !in cols[i] {
      DoubledChars(p.quote, row[i].text, '\0');
      DoubledChars(p.quote, row[i].text, '\n');
    }
    JoinChars(p, cols, '\0');
    JoinChars(p, cols, '\n');
  }
}
