/**
  Splitting a line into columns, trimming and unescaping them in place, against a plain reading of
  quoted fields (section 2 of RFC 4180, without line breaks inside fields).
 */
module CsvQuote {
  import opened CsvLines
  import opened Options

  // The separator, the quote and the trim characters of the template policies.
  datatype Policy = Policy(sep: char, quote: char, trim: set<char>)

  predicate PolicyOk(p: Policy) {
    p.sep != p.quote && p.sep != '\0' && p.quote != '\0'
  }

  function Plus(o: Option<nat>, k: nat): Option<nat> {
    match o case None => None case Some(x) => Some(x + k)
  }

  // ---------- where a column ends ----------

  // The first separator that is not inside quotes, or the end; None when a quote stays open.
  function ColumnEnd(p: Policy, s: seq<char>, inside: bool): (r: Option<nat>)
    ensures r.Some? ==> r.value <= |s| && (r.value < |s| ==> s[r.value] == p.sep)
  {
    if s == [] then (if inside then None else Some(0))
    else if !inside && s[0] == p.sep then Some(0)
    else Plus(ColumnEnd(p, s[1..], inside != (s[0] == p.quote)), 1)
  }

  // The same, in a buffer whose line ends at z.
  ghost function EndAt(p: Policy, b: seq<char>, z: nat, i: nat, inside: bool): Option<nat>
    requires i <= z <= |b|
  {
    Plus(ColumnEnd(p, b[i..z], inside), i)
  }

  lemma EndStep(p: Policy, b: seq<char>, z: nat, i: nat, inside: bool)
    requires i < z <= |b| && (inside || b[i] != p.sep)
    ensures EndAt(p, b, z, i, inside) == EndAt(p, b, z, i + 1, inside != (b[i] == p.quote))
  {
    assert b[i..z][1..] == b[i + 1..z];
  }

  // A NUL-terminated line from begin to z.
  ghost predicate LineAt(b: seq<char>, begin: nat, z: nat) {
    begin <= z < |b| && b[z] == '\0' && forall i :: begin <= i < z ==> b[i] != '\0'
  }

  /**
    find_next_column_end: the nested loops find the first separator outside quotes, and throw exactly
    when a quote is left open.
   */
  method FindNextColumnEnd(p: Policy, a: array<char>, begin: nat, ghost z: nat) returns (end: Option<nat>)
    requires PolicyOk(p) && LineAt(a[..], begin, z)
    ensures end == EndAt(p, a[..], z, begin, false)
    ensures end.Some? ==> begin <= end.value <= z
  {
    hide EndAt;
    ghost var goal := EndAt(p, a[..], z, begin, false);
    var col := begin;
    while a[col] != p.sep && a[col] != '\0'
      invariant begin <= col <= z && goal == EndAt(p, a[..], z, col, false)
      decreases z - col
    {
      EndStep(p, a[..], z, col, false);
      if a[col] != p.quote {
        col := col + 1;
      } else {
        while true
          invariant begin <= col < z && a[col] == p.quote && goal == EndAt(p, a[..], z, col + 1, true)
          decreases z - col
        {
          col := col + 1;
          while a[col] != p.quote
            invariant begin <= col <= z && goal == EndAt(p, a[..], z, col, true)
            decreases z - col
          {
            if a[col] == '\0' {
              Unclosed(p, a[..], z);
              return None;
            }
            EndStep(p, a[..], z, col, true);
            col := col + 1;
          }
          EndStep(p, a[..], z, col, true);
          col := col + 1;
          if a[col] != p.quote {
            break;
          }
          EndStep(p, a[..], z, col, false);
        }
      }
    }
    Stops(p, a[..], z, col);
    end := Some(col);
  }

  lemma Unclosed(p: Policy, b: seq<char>, z: nat)
    requires z <= |b|
    ensures EndAt(p, b, z, z, true) == None
  {
    assert b[z..z] == [];
  }

  lemma Stops(p: Policy, b: seq<char>, z: nat, i: nat)
    requires i <= z <= |b| && (i < z ==> b[i] == p.sep)
    ensures EndAt(p, b, z, i, false) == Some(i)
  {
    if i == z { assert b[i..z] == []; }
  }

  // ---------- where a column ends, by counting quotes ----------

  function Quotes(p: Policy, s: seq<char>): nat {
    if s == [] then 0 else (if s[0] == p.quote then 1 else 0) + Quotes(p, s[1..])
  }

  // Before position k an odd number of quotes is open, or an even number when a quote was open before.
  predicate InsideAt(p: Policy, s: seq<char>, inside: bool, k: nat)
    requires k <= |s|
  {
    inside != (Quotes(p, s[..k]) % 2 == 1)
  }

  // Position k ends a column: it is the end or a separator, and no quote is open.
  predicate EndsAt(p: Policy, s: seq<char>, inside: bool, k: nat) {
    k <= |s| && (k == |s| || s[k] == p.sep) && !InsideAt(p, s, inside, k)
  }

  lemma InsideNext(p: Policy, s: seq<char>, inside: bool, k: nat)
    requires 0 < k <= |s|
    ensures InsideAt(p, s, inside, k) <==> InsideAt(p, s[1..], inside != (s[0] == p.quote), k - 1)
  {
    assert s[..k][1..] == s[1..][..k - 1];
  }

  /**
    The column ends at the first separator, or the end, that an even number of quotes precedes; there is
    none exactly when the line ends with an open quote.
   */
  lemma {:induction false} ColumnEndIs(p: Policy, s: seq<char>, inside: bool)
    requires p.sep != p.quote
    ensures match ColumnEnd(p, s, inside)
            case Some(e) => EndsAt(p, s, inside, e) && forall k :: 0 <= k < e ==> !EndsAt(p, s, inside, k)
            case None => forall k :: 0 <= k <= |s| ==> !EndsAt(p, s, inside, k)
    decreases |s|
  {
    assert s[..0] == [];
    if s != [] && (inside || s[0] != p.sep) {
      var inside' := inside != (s[0] == p.quote);
      ColumnEndIs(p, s[1..], inside');
      forall k | 0 < k <= |s| ensures EndsAt(p, s, inside, k) <==> EndsAt(p, s[1..], inside', k - 1) {
        InsideNext(p, s, inside, k);
      }
      hide InsideAt, ColumnEnd;
    }
  }

  // ---------- trimming ----------

  function DropFront(t: set<char>, s: seq<char>): seq<char> {
    if s != [] && s[0] in t then DropFront(t, s[1..]) else s
  }

  function DropBack(t: set<char>, s: seq<char>): seq<char> {
    if s != [] && s[|s| - 1] in t then DropBack(t, s[..|s| - 1]) else s
  }

  function Trimmed(p: Policy, s: seq<char>): seq<char> {
    DropBack(p.trim, DropFront(p.trim, s))
  }

  /**
    trim_chars::trim: the text without its leading and trailing trim characters, terminated.
   */
  method Trim(p: Policy, a: array<char>, begin: nat, end: nat) returns (begin': nat, end': nat)
    requires begin <= end < a.Length
    modifies a
    ensures begin <= begin' <= end' <= end
    ensures a[..] == old(a[..])[end' := '\0']
    ensures old(a[begin'..end']) == Trimmed(p, old(a[begin..end]))
    ensures forall i :: begin <= i < begin' || end' <= i < end ==> old(a[i]) in p.trim
    ensures begin' < end' ==> old(a[begin']) !in p.trim && old(a[end' - 1]) !in p.trim
  {
    hide DropFront, DropBack;
    ghost var b := a[..];
    begin', end' := begin, end;
    assert b[begin..end] == a[begin..end];
    while begin' != end' && a[begin'] in p.trim
      invariant begin <= begin' <= end' == end && a[..] == b && forall i :: begin <= i < begin' ==> b[i] in p.trim
      invariant DropFront(p.trim, b[begin'..end]) == DropFront(p.trim, b[begin..end])
    {
      FrontStep(p.trim, b, begin', end);
      begin' := begin' + 1;
    }
    FrontDone(p.trim, b, begin', end);
    while begin' != end' && a[end' - 1] in p.trim
      invariant begin' <= end' <= end && a[..] == b && forall i :: end' <= i < end ==> b[i] in p.trim
      invariant DropBack(p.trim, b[begin'..end']) == DropBack(p.trim, b[begin'..end])
    {
      BackStep(p.trim, b, begin', end');
      end' := end' - 1;
    }
    BackDone(p.trim, b, begin', end');
    a[end'] := '\0';
  }

  lemma FrontStep(t: set<char>, b: seq<char>, i: nat, j: nat)
    requires i < j <= |b| && b[i] in t
    ensures DropFront(t, b[i..j]) == DropFront(t, b[i + 1..j])
  {
    assert b[i..j][1..] == b[i + 1..j];
  }

  lemma FrontDone(t: set<char>, b: seq<char>, i: nat, j: nat)
    requires i <= j <= |b| && (i < j ==> b[i] !in t)
    ensures DropFront(t, b[i..j]) == b[i..j]
  {}

  lemma BackStep(t: set<char>, b: seq<char>, i: nat, j: nat)
    requires i < j <= |b| && b[j - 1] in t
    ensures DropBack(t, b[i..j]) == DropBack(t, b[i..j - 1])
  {
    assert b[i..j][..j - i - 1] == b[i..j - 1];
  }

  lemma BackDone(t: set<char>, b: seq<char>, i: nat, j: nat)
    requires i <= j <= |b| && (i < j ==> b[j - 1] !in t)
    ensures DropBack(t, b[i..j]) == b[i..j]
  {}

  // ---------- unescaping ----------

  // Doubled quotes become single ones.
  function Collapse(q: char, s: seq<char>): (r: seq<char>)
    ensures |r| <= |s|
    decreases |s|
  {
    if s == [] then []
    else if |s| >= 2 && s[0] == q && s[1] == q then [q] + Collapse(q, s[2..])
    else [s[0]] + Collapse(q, s[1..])
  }

  function Repeated(q: char, n: nat): (r: seq<char>)
    ensures |r| == n && forall i :: 0 <= i < n ==> r[i] == q
  {
    seq(n, _ => q)
  }

  lemma CollapseFirst(q: char, s: seq<char>)
    ensures Collapse(q, []) == [] && Collapse(q, [q, q] + s) == [q] + Collapse(q, s)
    ensures s == [] || s[0] != q ==> Collapse(q, [q] + s) == [q] + Collapse(q, s)
    ensures s != [] && s[0] != q ==> Collapse(q, s) == [s[0]] + Collapse(q, s[1..])
  {
    assert ([q, q] + s)[2..] == s && ([q] + s)[1..] == s;
  }

  /**
    Of n quotes in a row half are left, rounded up; other characters stay.
   */
  lemma {:induction false} CollapseRuns(q: char, n: nat, s: seq<char>)
    requires s == [] || s[0] != q
    ensures Collapse(q, Repeated(q, n) + s) == Repeated(q, (n + 1) / 2) + Collapse(q, s)
    ensures s != [] ==> Collapse(q, s) == [s[0]] + Collapse(q, s[1..])
    decreases n
  {
    hide Collapse, Repeated;
    CollapseFirst(q, s);
    if n == 0 {
      assert Repeated(q, n) + s == s && Repeated(q, 0) + Collapse(q, s) == Collapse(q, s);
    } else if n == 1 {
      assert Repeated(q, n) == [q];
    } else {
      CollapseRuns(q, n - 2, s);
      var t := Repeated(q, n - 2) + s;
      CollapseFirst(q, t);
      TwoQuotesMore(q, n - 2, s);
      OneQuoteMore(q, (n - 1) / 2, Collapse(q, s));
    }
  }

  lemma TwoQuotesMore(q: char, n: nat, s: seq<char>)
    ensures Repeated(q, n + 2) + s == [q, q] + (Repeated(q, n) + s)
  {}

  lemma OneQuoteMore(q: char, n: nat, s: seq<char>)
    ensures Repeated(q, n + 1) + s == [q] + (Repeated(q, n) + s)
  {}

  function Unescaped(p: Policy, s: seq<char>): seq<char> {
    if |s| >= 2 && s[0] == p.quote && s[|s| - 1] == p.quote then Collapse(p.quote, s[1..|s| - 1]) else s
  }

  // b' differs from b between i and j only.
  ghost predicate OutsideKept(b: seq<char>, b': seq<char>, i: nat, j: nat) {
    i <= j <= |b| && |b'| == |b| && b'[..i] == b[..i] && b'[j..] == b[j..]
  }

  /**
    double_quote_escape::unescape: a quoted text loses its quotes and its doubled quotes become
    single, in place and terminated; any other text is left alone.
   */
  method Unescape(p: Policy, a: array<char>, begin: nat, end: nat) returns (begin': nat, end': nat)
    requires begin <= end < a.Length && a[end] == '\0'
    modifies a
    ensures begin <= begin' <= end' <= end
    ensures OutsideKept(old(a[..]), a[..], begin, end)
    ensures a[begin'..end'] == Unescaped(p, old(a[begin..end])) && a[end'] == '\0'
    ensures !(end - begin >= 2 && old(a[begin]) == p.quote && old(a[end - 1]) == p.quote) ==>
              begin' == begin && end' == end && a[..] == old(a[..])
  {
    begin', end' := begin, end;
    if end - begin >= 2 && a[begin] == p.quote && a[end - 1] == p.quote {
      ghost var b := a[..];
      assert b[begin..end][1..end - begin - 1] == b[begin + 1..end - 1];
      begin' := begin + 1;
      end' := CollapseInPlace(p.quote, a, begin', end - 1);
      a[end'] := '\0';
    }
  }

  method CollapseInPlace(q: char, a: array<char>, begin: nat, end: nat) returns (out: nat)
    requires begin <= end < a.Length
    modifies a
    ensures begin <= out <= end
    ensures a[begin..out] == Collapse(q, old(a[begin..end]))
    ensures forall j :: 0 <= j < begin || end <= j < a.Length ==> a[j] == old(a[j])
  {
    ghost var b := a[..];
    out := begin;
    var i := begin;
    ghost var done: seq<char> := [];
    Progressing(q, b, begin, end);
    hide Progress;
    while i != end
      invariant begin <= out <= i <= end
      invariant forall j :: 0 <= j < begin || i <= j < a.Length ==> a[j] == b[j]
      invariant a[begin..out] == done && Progress(q, b, begin, i, end, done)
      decreases end - i
    {
      CollapseStep(q, b, begin, i, end, done);
      if a[i] == q && i + 1 != end && a[i + 1] == q {
        i := i + 1;
      }
      AppendInPlace(a, begin, out, a[i]);
      done := done + [b[i]];
      out, i := out + 1, i + 1;
    }
    NothingLeft(q, b, begin, end, done);
  }

  // What was written so far, followed by the rest collapsed, is the whole collapsed.
  ghost predicate Progress(q: char, b: seq<char>, begin: nat, i: nat, end: nat, done: seq<char>) {
    begin <= i <= end <= |b| && done + Collapse(q, b[i..end]) == Collapse(q, b[begin..end])
  }

  lemma Progressing(q: char, b: seq<char>, begin: nat, end: nat)
    requires begin <= end <= |b|
    ensures Progress(q, b, begin, begin, end, [])
  {}

  // *out = c
  method AppendInPlace(a: array<char>, begin: nat, out: nat, c: char)
    requires begin <= out < a.Length
    modifies a
    ensures a[begin..out + 1] == old(a[begin..out]) + [c]
    ensures forall j :: 0 <= j < a.Length && j != out ==> a[j] == old(a[j])
  {
    a[out] := c;
  }

  lemma NothingLeft(q: char, b: seq<char>, begin: nat, end: nat, done: seq<char>)
    requires Progress(q, b, begin, end, end, done)
    ensures done == Collapse(q, b[begin..end])
  {
    assert b[end..end] == [] && Collapse(q, []) == [];
  }

  lemma CollapseStep(q: char, b: seq<char>, begin: nat, i: nat, end: nat, done: seq<char>)
    requires Progress(q, b, begin, i, end, done) && i < end
    ensures var k := if b[i] == q && i + 1 != end && b[i + 1] == q then i + 1 else i;
            Progress(q, b, begin, k + 1, end, done + [b[k]])
  {
    var k := if b[i] == q && i + 1 != end && b[i + 1] == q then i + 1 else i;
    assert b[i..end][1..] == b[i + 1..end];
    if i + 1 < end { assert b[i..end][2..] == b[i + 2..end]; }
    assert Collapse(q, b[i..end]) == [b[k]] + Collapse(q, b[k + 1..end]);
    Append(done, b[k], Collapse(q, b[k + 1..end]));
  }
}
