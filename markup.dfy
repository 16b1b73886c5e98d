/** The inline-markup scan of format_current_line and format_line_without_cursor
    (the two hold the same loop): one left-to-right pass over a row that picks
    a colour for every character before the row's first NUL.

    The specification is given twice. `SpanAt`/`SpansFrom`/`Tokenize` cut the
    row into spans; `RuleHolds` says, with first-occurrence quantifiers and no
    recursion, what style and extent each span must have. `Format` is the
    source's nested loops, with the current text colour as a variable, proved
    to emit exactly `Tokenize`. */
module Markup {
  import opened Buffer

  datatype Style = Normal | Bold | Italic | Mono | Header1 | Header2

  /** One cputc: the character and the text colour in force when it was written. */
  datatype Cell = Cell(ch: char, style: Style)

  /** A run of one style over the row indices [start, end). */
  datatype Span = Span(style: Style, start: nat, end: nat)

  /** `line[k] == '*' && line[k+1] == '*'`. */
  predicate PairAt(row: Row, k: nat)
  {
    k + 1 < |row| && row[k] == '*' && row[k + 1] == '*'
  }

  /** `i == 0 || line[i-1] == ' '`: where a header marker may stand. */
  predicate HeaderPos(row: Row, i: nat)
    requires i < |row|
  {
    i == 0 || row[i - 1] == ' '
  }

  // ---- where a span ends ----

  /** End of a bold span whose body has reached j: just past the next `**`,
      or the end of the row. */
  function BoldEnd(row: Row, j: nat): (e: nat)
    requires RowOk(row) && j <= Len(row)
    ensures j <= e <= Len(row)
    decreases Len(row) - j
  {
    LenBound(row);
    if row[j] == NUL then j
    else if row[j] == '*' && row[j + 1] == '*' then j + 2
    else BoldEnd(row, j + 1)
  }

  /** End of an italic or code span whose body has reached j: just past the
      next m, or the end of the row. */
  function CloseEnd(row: Row, j: nat, m: char): (e: nat)
    requires RowOk(row) && j <= Len(row)
    ensures j <= e <= Len(row)
    decreases Len(row) - j
  {
    LenBound(row);
    if row[j] == NUL then j
    else if row[j] == m then j + 1
    else CloseEnd(row, j + 1, m)
  }

  /** The span the scan forms at a top-level position i, rules in the
      source's order: `**`, `*`, `'`, `##`, `#`, any other character. */
  function SpanAt(row: Row, i: nat): (sp: Span)
    requires RowOk(row) && i < Len(row)
    ensures sp.start == i < sp.end <= Len(row)
  {
    LenBound(row);
    if row[i] == '*' && row[i + 1] == '*' then Span(Bold, i, BoldEnd(row, i + 2))
    else if row[i] == '*' then Span(Italic, i, CloseEnd(row, i + 1, '*'))
    else if row[i] == '\'' then Span(Mono, i, CloseEnd(row, i + 1, '\''))
    else if row[i] == '#' && row[i + 1] == '#' && HeaderPos(row, i) then Span(Header2, i, Len(row))
    else if row[i] == '#' && HeaderPos(row, i) then Span(Header1, i, Len(row))
    else Span(Normal, i, i + 1)
  }

  /** The spans of the scan from top-level position i to the row's NUL. */
  function SpansFrom(row: Row, i: nat): seq<Span>
    requires RowOk(row) && i <= Len(row)
    decreases Len(row) - i
  {
    LenBound(row);
    if row[i] == NUL then []
    else
      var sp := SpanAt(row, i);
      [sp] + SpansFrom(row, sp.end)
  }

  function Spans(row: Row): seq<Span>
    requires RowOk(row)
  {
    SpansFrom(row, 0)
  }

  /** The cells written for one span. */
  function Paint(row: Row, sp: Span): seq<Cell>
    requires sp.start <= sp.end <= |row|
  {
    seq(sp.end - sp.start, k requires 0 <= k < sp.end - sp.start => Cell(row[sp.start + k], sp.style))
  }

  ghost predicate SpansFit(row: Row, sps: seq<Span>)
  {
    forall j :: 0 <= j < |sps| ==> sps[j].start <= sps[j].end <= |row|
  }

  function PaintAll(row: Row, sps: seq<Span>): seq<Cell>
    requires SpansFit(row, sps)
  {
    if sps == [] then [] else Paint(row, sps[0]) + PaintAll(row, sps[1..])
  }

  lemma {:induction false} SpansFromFit(row: Row, i: nat)
    requires RowOk(row) && i <= Len(row)
    ensures SpansFit(row, SpansFrom(row, i))
    decreases Len(row) - i
  {
    LenBound(row);
    if row[i] != NUL {
      var sp := SpanAt(row, i);
      var rest := SpansFrom(row, sp.end);
      SpansFromFit(row, sp.end);
      assert SpansFrom(row, i) == [sp] + rest;
      forall j | 0 <= j < |rest| + 1
        ensures ([sp] + rest)[j].start <= ([sp] + rest)[j].end <= |row|
      {
        if j > 0 {
          assert ([sp] + rest)[j] == rest[j - 1];
        }
      }
    }
  }

  /** What format_current_line writes for a row. */
  function Tokenize(row: Row): seq<Cell>
    requires RowOk(row)
  {
    SpansFromFit(row, 0);
    PaintAll(row, Spans(row))
  }

  /** The cells the scan writes from top-level position i on. */
  function PaintFrom(row: Row, i: nat): seq<Cell>
    requires RowOk(row) && i <= Len(row)
    decreases Len(row) - i
  {
    LenBound(row);
    if row[i] == NUL then []
    else
      var sp := SpanAt(row, i);
      Paint(row, sp) + PaintFrom(row, sp.end)
  }

  lemma {:induction false} PaintFromAll(row: Row, i: nat)
    requires RowOk(row) && i <= Len(row)
    ensures SpansFit(row, SpansFrom(row, i))
    ensures PaintFrom(row, i) == PaintAll(row, SpansFrom(row, i))
    decreases Len(row) - i
  {
    LenBound(row);
    SpansFromFit(row, i);
    if row[i] != NUL {
      var sp := SpanAt(row, i);
      PaintFromAll(row, sp.end);
      PaintAllCons(row, sp, SpansFrom(row, sp.end));
    }
  }

  lemma PaintFromStep(row: Row, i: nat)
    requires RowOk(row) && i < Len(row)
    ensures PaintFrom(row, i) == Paint(row, SpanAt(row, i)) + PaintFrom(row, SpanAt(row, i).end)
  {
  }

  lemma Concat3(a: seq<Cell>, b: seq<Cell>, c: seq<Cell>, d: seq<Cell>)
    requires a + (b + c) == d
    ensures (a + b) + c == d
  {
  }

  // ---- the rules, stated without recursion ----

  /** A bold body starting at j ends at e: just past the first `**` at or
      after j, or at the end of the row when no `**` follows. A lone `*` does
      not end it. */
  ghost predicate ClosesAtPair(row: Row, j: nat, e: nat)
  {
    (j + 2 <= e <= Len(row) && PairAt(row, e - 2) && forall k :: j <= k < e - 2 ==> !PairAt(row, k))
    || (e == Len(row) && forall k :: j <= k < Len(row) ==> !PairAt(row, k))
  }

  /** A body starting at j ends at e: just past the first m at or after j, or
      at the end of the row when no m follows. */
  ghost predicate ClosesAt(row: Row, j: nat, e: nat, m: char)
  {
    (j + 1 <= e <= Len(row) && row[e - 1] == m && forall k :: j <= k < e - 1 ==> row[k] != m)
    || (e == Len(row) && forall k :: j <= k < Len(row) ==> row[k] != m)
  }

  /** The style and extent a span starting at a top-level position must have. */
  ghost predicate RuleHolds(row: Row, sp: Span)
    requires RowOk(row) && sp.start < Len(row)
  {
    LenBound(row);
    var s := sp.start;
    if PairAt(row, s) then sp.style == Bold && ClosesAtPair(row, s + 2, sp.end)
    else if row[s] == '*' then sp.style == Italic && ClosesAt(row, s + 1, sp.end, '*')
    else if row[s] == '\'' then sp.style == Mono && ClosesAt(row, s + 1, sp.end, '\'')
    else if row[s] == '#' && HeaderPos(row, s) then
      sp.style == (if row[s + 1] == '#' then Header2 else Header1) && sp.end == Len(row)
    else sp.style == Normal && sp.end == s + 1
  }

  /** The spans cover [i, b) one after another, each nonempty. */
  ghost predicate Tiles(sps: seq<Span>, i: nat, b: nat)
  {
    (sps == [] <==> i == b)
    && (sps != [] ==> sps[0].start == i && sps[|sps| - 1].end == b)
    && (forall j :: 0 <= j < |sps| ==> i <= sps[j].start < sps[j].end <= b)
    && (forall j :: 0 <= j < |sps| - 1 ==> sps[j].end == sps[j + 1].start)
  }

  // ---- proofs of the rules ----

  lemma {:induction false} BoldEndCloses(row: Row, j: nat)
    requires RowOk(row) && j <= Len(row)
    ensures ClosesAtPair(row, j, BoldEnd(row, j))
    decreases Len(row) - j
  {
    LenBound(row);
    if row[j] != NUL && !(row[j] == '*' && row[j + 1] == '*') {
      BoldEndCloses(row, j + 1);
    }
  }

  lemma {:induction false} CloseEndCloses(row: Row, j: nat, m: char)
    requires RowOk(row) && j <= Len(row) && m != NUL
    ensures ClosesAt(row, j, CloseEnd(row, j, m), m)
    decreases Len(row) - j
  {
    LenBound(row);
    if row[j] != NUL && row[j] != m {
      CloseEndCloses(row, j + 1, m);
    }
  }

  /** Every span the scan forms obeys the rules. */
  lemma SpanAtObeysRules(row: Row, i: nat)
    requires RowOk(row) && i < Len(row)
    ensures RuleHolds(row, SpanAt(row, i))
  {
    LenBound(row);
    if row[i] == '*' && row[i + 1] == '*' {
      BoldEndCloses(row, i + 2);
    } else if row[i] == '*' {
      CloseEndCloses(row, i + 1, '*');
    } else if row[i] == '\'' {
      CloseEndCloses(row, i + 1, '\'');
    }
  }

  lemma {:induction false} SpansFromTile(row: Row, i: nat)
    requires RowOk(row) && i <= Len(row)
    ensures Tiles(SpansFrom(row, i), i, Len(row))
    decreases Len(row) - i
  {
    LenBound(row);
    if row[i] != NUL {
      var sp := SpanAt(row, i);
      SpansFromTile(row, sp.end);
      var rest := SpansFrom(row, sp.end);
      assert SpansFrom(row, i) == [sp] + rest;
      TilesCons(sp, rest, Len(row));
    }
  }

  lemma TilesCons(sp: Span, rest: seq<Span>, b: nat)
    requires sp.start < sp.end && Tiles(rest, sp.end, b)
    ensures Tiles([sp] + rest, sp.start, b)
  {
    var sps := [sp] + rest;
    forall j | 0 < j < |sps|
      ensures sps[j] == rest[j - 1]
    {
    }
    if rest == [] {
      assert sps == [sp];
    } else {
      assert sps[|sps| - 1] == rest[|rest| - 1];
      assert rest[0].start == sp.end;
    }
  }

  lemma {:induction false} SpansFromObey(row: Row, i: nat)
    requires RowOk(row) && i <= Len(row)
    ensures forall j :: 0 <= j < |SpansFrom(row, i)| ==>
      SpansFrom(row, i)[j].start < Len(row) && RuleHolds(row, SpansFrom(row, i)[j])
    decreases Len(row) - i
  {
    LenBound(row);
    if row[i] != NUL {
      var sp := SpanAt(row, i);
      SpanAtObeysRules(row, i);
      SpansFromObey(row, sp.end);
      var rest := SpansFrom(row, sp.end);
      var sps := SpansFrom(row, i);
      assert sps == [sp] + rest;
      forall j | 0 <= j < |sps|
        ensures sps[j].start < Len(row) && RuleHolds(row, sps[j])
      {
        if j > 0 {
          assert sps[j] == rest[j - 1];
        }
      }
    }
  }

  /** The scan cuts every row into spans that tile [0, strlen) and that each
      obey the marker rules. */
  lemma SpansObeyRules(row: Row)
    requires RowOk(row)
    ensures Tiles(Spans(row), 0, Len(row))
    ensures forall j :: 0 <= j < |Spans(row)| ==>
      Spans(row)[j].start < Len(row) && RuleHolds(row, Spans(row)[j])
  {
    SpansFromTile(row, 0);
    SpansFromObey(row, 0);
  }

  lemma {:induction false} PaintAllLength(row: Row, sps: seq<Span>, i: nat, b: nat)
    requires SpansFit(row, sps) && Tiles(sps, i, b)
    ensures |PaintAll(row, sps)| == b - i
    decreases |sps|
  {
    if sps != [] {
      TilesTail(sps, i, b);
      PaintAllLength(row, sps[1..], sps[0].end, b);
    }
  }

  /** The cells painted for span j of a tiling of [i, b): output position n
      is the character at i + n. */
  lemma {:induction false} PaintAllSpan(row: Row, sps: seq<Span>, i: nat, b: nat, j: nat)
    requires SpansFit(row, sps) && Tiles(sps, i, b) && j < |sps|
    ensures |PaintAll(row, sps)| == b - i
    ensures forall n :: sps[j].start <= i + n < sps[j].end ==>
      PaintAll(row, sps)[n] == Cell(row[i + n], sps[j].style)
    decreases j
  {
    var sp := sps[0];
    var rest := sps[1..];
    TilesTail(sps, i, b);
    PaintAllLength(row, sps, i, b);
    var p := Paint(row, sp);
    var q := PaintAll(row, rest);
    assert PaintAll(row, sps) == p + q;
    if j > 0 {
      PaintAllSpan(row, rest, sp.end, b, j - 1);
      var sj := rest[j - 1];
      assert sps[j] == sj;
      TilesOrdered(sps, i, b, 0, j);
      assert |p| == sp.end - i;
      forall n | sj.start <= i + n < sj.end
        ensures (p + q)[n] == Cell(row[i + n], sj.style)
      {
        AppendAt(p, q, n);
      }
    }
  }

  lemma AppendAt(p: seq<Cell>, q: seq<Cell>, n: nat)
    requires |p| <= n < |p| + |q|
    ensures (p + q)[n] == q[n - |p|]
  {
  }

  lemma PaintAllCells(row: Row, sps: seq<Span>, i: nat, b: nat)
    requires SpansFit(row, sps) && Tiles(sps, i, b)
    ensures |PaintAll(row, sps)| == b - i
    ensures forall j, n :: 0 <= j < |sps| && sps[j].start <= i + n < sps[j].end ==>
      PaintAll(row, sps)[n] == Cell(row[i + n], sps[j].style)
  {
    PaintAllLength(row, sps, i, b);
    forall j | 0 <= j < |sps|
      ensures forall n :: sps[j].start <= i + n < sps[j].end ==>
        PaintAll(row, sps)[n] == Cell(row[i + n], sps[j].style)
    {
      PaintAllSpan(row, sps, i, b, j);
    }
  }

  lemma TilesTail(sps: seq<Span>, i: nat, b: nat)
    requires Tiles(sps, i, b) && sps != []
    ensures Tiles(sps[1..], sps[0].end, b)
  {
    var rest := sps[1..];
    forall j | 0 <= j < |rest|
      ensures sps[0].end <= rest[j].start
    {
      TilesOrdered(sps, i, b, 0, j + 1);
    }
    if rest != [] {
      assert rest[|rest| - 1] == sps[|sps| - 1];
    }
  }

  lemma {:induction false} TilesOrdered(sps: seq<Span>, i: nat, b: nat, j0: nat, j: nat)
    requires Tiles(sps, i, b) && j0 < j < |sps|
    ensures sps[j0].end <= sps[j].start
    decreases j - j0
  {
    if j0 + 1 < j {
      TilesOrdered(sps, i, b, j0 + 1, j);
    }
  }

  /** Tokenizer output: one cell per character before the first NUL, in
      order, each in the style of the span that contains it. */
  lemma TokenizeCells(row: Row)
    requires RowOk(row)
    ensures Tiles(Spans(row), 0, Len(row))
    ensures |Tokenize(row)| == Len(row)
    ensures forall j, k :: 0 <= j < |Spans(row)| && Spans(row)[j].start <= k < Spans(row)[j].end ==>
      Tokenize(row)[k] == Cell(row[k], Spans(row)[j].style)
  {
    SpansFromFit(row, 0);
    SpansFromTile(row, 0);
    var sps := Spans(row);
    assert Tokenize(row) == PaintAll(row, sps);
    PaintAllCells(row, sps, 0, Len(row));
  }

  function Chars(cells: seq<Cell>): seq<char>
  {
    seq(|cells|, k requires 0 <= k < |cells| => cells[k].ch)
  }

  /** The characters written are exactly the row's string, each once, in order. */
  lemma TokenizeSpellsRow(row: Row)
    requires RowOk(row)
    ensures Chars(Tokenize(row)) == Str(row)
  {
    TokenizeCells(row);
    SpansFromTile(row, 0);
    var sps := Spans(row);
    forall k | 0 <= k < Len(row)
      ensures Tokenize(row)[k].ch == row[k]
    {
      var j := CoveringSpan(sps, 0, Len(row), k);
    }
  }

  /** The span of a tiling that covers index k. */
  lemma {:induction false} CoveringSpan(sps: seq<Span>, i: nat, b: nat, k: nat) returns (j: nat)
    requires Tiles(sps, i, b) && i <= k < b
    ensures j < |sps| && sps[j].start <= k < sps[j].end
    decreases |sps|
  {
    if k < sps[0].end {
      j := 0;
    } else {
      var rest := sps[1..];
      TilesTail(sps, i, b);
      var j' := CoveringSpan(rest, sps[0].end, b, k);
      j := j' + 1;
    }
  }

  /** A row whose first character is `#` is entirely a header: H2 when the
      second is also `#`, H1 otherwise. */
  lemma HeaderAtColumnZero(row: Row)
    requires RowOk(row) && row[0] == '#'
    ensures forall k :: 0 <= k < |Tokenize(row)| ==>
      Tokenize(row)[k].style == (if row[1] == '#' then Header2 else Header1)
  {
    TokenizeCells(row);
    LenBound(row);
    assert Spans(row) == [SpanAt(row, 0)] + SpansFrom(row, Len(row));
  }

  // ---- the source's loops ----

  lemma PaintSnoc(row: Row, st: Style, s: nat, i: nat)
    requires s <= i < |row|
    ensures Paint(row, Span(st, s, i + 1)) == Paint(row, Span(st, s, i)) + [Cell(row[i], st)]
  {
  }

  lemma PaintAllCons(row: Row, sp: Span, sps: seq<Span>)
    requires sp.start <= sp.end <= |row| && SpansFit(row, sps)
    ensures SpansFit(row, [sp] + sps)
    ensures PaintAll(row, [sp] + sps) == Paint(row, sp) + PaintAll(row, sps)
  {
    assert ([sp] + sps)[1..] == sps;
  }

  /** One step of the top-level scan: the cells of the span at i, then the rest. */
  lemma ScanStep(row: Row, i: nat)
    requires RowOk(row) && i < Len(row)
    ensures SpansFit(row, SpansFrom(row, SpanAt(row, i).end))
    ensures SpansFit(row, SpansFrom(row, i))
    ensures PaintAll(row, SpansFrom(row, i))
      == Paint(row, SpanAt(row, i)) + PaintAll(row, SpansFrom(row, SpanAt(row, i).end))
  {
    LenBound(row);
    SpansFromFit(row, SpanAt(row, i).end);
    SpansFromFit(row, i);
    PaintAllCons(row, SpanAt(row, i), SpansFrom(row, SpanAt(row, i).end));
  }

  /** The `**` branch: the opener, the body up to and including the next
      `**`, all written in the bold colour. */
  method EmitBold(line: Row, s: nat) returns (cells: seq<Cell>, i: nat)
    requires RowOk(line) && s < Len(line) && line[s] == '*' && line[s + 1] == '*'
    ensures i == SpanAt(line, s).end && cells == Paint(line, SpanAt(line, s))
  {
    LenBound(line);
    assert SpanAt(line, s) == Span(Bold, s, BoldEnd(line, s + 2));
    var color := Bold;
    cells := [Cell('*', color), Cell('*', color)];
    i := s + 2;
    assert cells == Paint(line, Span(Bold, s, i));
    while i < COLS && line[i] != NUL
      invariant s + 2 <= i <= Len(line)
      invariant BoldEnd(line, i) == BoldEnd(line, s + 2)
      invariant color == Bold
      invariant cells == Paint(line, Span(Bold, s, i))
      decreases COLS - i
    {
      if line[i] == '*' && line[i + 1] == '*' {
        cells := cells + [Cell('*', color)];
        PaintSnoc(line, Bold, s, i);
        cells := cells + [Cell('*', color)];
        PaintSnoc(line, Bold, s, i + 1);
        color := Normal;
        i := i + 2;
        return;
      }
      cells := cells + [Cell(line[i], color)];
      PaintSnoc(line, Bold, s, i);
      i := i + 1;
    }
  }

  /** The `*` and `'` branches: the opener and the body up to and including
      the next closing mark m. The code branch sets its colour again before
      every character; the colour is the same each time. */
  method EmitQuoted(line: Row, s: nat, m: char, style: Style) returns (cells: seq<Cell>, i: nat)
    requires RowOk(line) && s < Len(line) && line[s] == m
    requires (m == '*' && style == Italic && line[s + 1] != '*') || (m == '\'' && style == Mono)
    ensures i == SpanAt(line, s).end && cells == Paint(line, SpanAt(line, s))
  {
    LenBound(line);
    assert SpanAt(line, s) == Span(style, s, CloseEnd(line, s + 1, m));
    var color := style;
    cells := [Cell(m, color)];
    i := s + 1;
    assert cells == Paint(line, Span(style, s, i));
    while i < COLS && line[i] != NUL
      invariant s + 1 <= i <= Len(line)
      invariant CloseEnd(line, i, m) == CloseEnd(line, s + 1, m)
      invariant color == style
      invariant cells == Paint(line, Span(style, s, i))
      decreases COLS - i
    {
      if line[i] == m {
        assert CloseEnd(line, i, m) == i + 1;
        cells := cells + [Cell(m, color)];
        PaintSnoc(line, style, s, i);
        color := Normal;
        i := i + 1;
        return;
      }
      color := style;
      cells := cells + [Cell(line[i], color)];
      PaintSnoc(line, style, s, i);
      i := i + 1;
    }
  }

  /** The header branches: everything from s to the NUL in one colour. */
  method EmitRest(line: Row, s: nat, style: Style) returns (cells: seq<Cell>, i: nat)
    requires RowOk(line) && s <= Len(line)
    ensures i == Len(line) && cells == Paint(line, Span(style, s, i))
  {
    LenBound(line);
    var color := style;
    cells := [];
    i := s;
    while i < COLS && line[i] != NUL
      invariant s <= i <= Len(line)
      invariant cells == Paint(line, Span(style, s, i))
      decreases COLS - i
    {
      cells := cells + [Cell(line[i], color)];
      PaintSnoc(line, style, s, i);
      i := i + 1;
    }
  }

  /** One turn of the scan: the branch the character at i selects emits the
      cells of the span starting at i. */
  method EmitSpan(line: Row, i: nat) returns (cells: seq<Cell>, j: nat)
    requires RowOk(line) && i < Len(line)
    ensures j == SpanAt(line, i).end && cells == Paint(line, SpanAt(line, i))
  {
    LenBound(line);
    if line[i] == '*' && line[i + 1] == '*' {
      cells, j := EmitBold(line, i);
    } else if line[i] == '*' {
      cells, j := EmitQuoted(line, i, '*', Italic);
    } else if line[i] == '\'' {
      cells, j := EmitQuoted(line, i, '\'', Mono);
    } else if line[i] == '#' && line[i + 1] == '#' && (i == 0 || line[i - 1] == ' ') {
      cells, j := EmitRest(line, i, Header2);
    } else if line[i] == '#' && (i == 0 || line[i - 1] == ' ') {
      cells, j := EmitRest(line, i, Header1);
    } else {
      cells := [Cell(line[i], Normal)];
      j := i + 1;
    }
  }

  /** The loop of format_current_line / format_line_without_cursor: it writes
      the cells `Tokenize` describes. */
  method Format(line: Row) returns (out: seq<Cell>)
    requires RowOk(line)
    ensures out == Tokenize(line)
  {
    LenBound(line);
    var i: nat := 0;
    out := [];
    while i < COLS && line[i] != NUL
      invariant i <= Len(line)
      invariant out + PaintFrom(line, i) == PaintFrom(line, 0)
      decreases COLS - i
    {
      ghost var sp := SpanAt(line, i);
      PaintFromStep(line, i);
      var cells: seq<Cell>;
      cells, i := EmitSpan(line, i);
      Concat3(out, cells, PaintFrom(line, i), PaintFrom(line, 0));
      out := out + cells;
    }
    assert PaintFrom(line, i) == [];
    PaintFromAll(line, 0);
  }
}
