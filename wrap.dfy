/** wrap_line: when a row has reached 79 characters, break it at its last
    space, shift the rows below it down by one (the last row falls off) and
    move the text after the break into the row that follows.

    `Wrap` is the behaviour the editor model uses. `WrapAsWritten` differs from
    it in one case only: when the row has no space to break at, the source copies
    `&current_line[80]`, which is the first byte of the next row, onto that
    same row; that row then keeps its text and appears twice. */
module Wrap {
  import opened Buffer

  /** last_space after the loop has looked at indices 0..n-1: the highest
      index below n that holds a space, or 0 when there is none. */
  function LastSpace(row: Row, n: nat): (b: nat)
    requires n <= |row|
    ensures b == 0 || b < n
    ensures b > 0 ==> row[b] == ' ' && forall k :: b < k < n ==> row[k] != ' '
    ensures b == 0 ==> forall k :: 0 < k < n ==> row[k] != ' '
  {
    if n == 0 then 0
    else if row[n - 1] == ' ' then n - 1
    else LastSpace(row, n - 1)
  }

  /** The break index: the last space among 0..78, or 79 when that space is
      at index 0 or there is none. */
  function BreakIndex(row: Row): nat
    requires |row| == COLS
  {
    var b := LastSpace(row, COLS - 1);
    if b == 0 then COLS - 1 else b
  }

  /** The source's guard: a row is wrapped only when it is not the last row
      and holds at least 79 characters. */
  predicate Wraps(g: Grid, ln: nat)
    requires |g| == ROWS
  {
    ln < ROWS - 1 && Len(g[ln]) >= COLS - 1
  }

  /** The rows after a break of row ln at b. */
  function Broken(g: Grid, ln: nat, b: nat): (w: seq<Row>)
    requires GridOk(g) && ln < ROWS - 1 && b < COLS
    ensures |w| == ROWS
    ensures forall i :: 0 <= i < ln ==> w[i] == g[i]
    ensures w[ln] == g[ln][b := NUL]
    ensures w[ln + 1] == StrCpy(g[ln + 1], Str(g[ln][b + 1..]))
    ensures forall i :: ln + 1 < i < ROWS ==> w[i] == StrCpy(g[i], Str(g[i - 1]))
  {
    seq(ROWS, i requires 0 <= i < ROWS =>
      if i < ln then g[i]
      else if i == ln then g[ln][b := NUL]
      else if i == ln + 1 then StrCpy(g[ln + 1], Str(g[ln][b + 1..]))
      else StrCpy(g[i], Str(g[i - 1])))
  }

  /** wrap_line, with the text after a break at 79 read as the empty string. */
  function Wrap(g: Grid, ln: nat): (w: Grid)
    requires GridOk(g)
    ensures GridOk(w)
  {
    if !Wraps(g, ln) then g
    else
      BrokenOk(g, ln, BreakIndex(g[ln]));
      Broken(g, ln, BreakIndex(g[ln]))
  }

  lemma BrokenOk(g: Grid, ln: nat, b: nat)
    requires GridOk(g) && ln < ROWS - 1 && b < COLS
    ensures GridOk(Broken(g, ln, b))
  {
    var w := Broken(g, ln, b);
    forall i | 0 <= i < ROWS
      ensures RowOk(w[i])
    {
      if i == ln {
        assert w[i][COLS - 1] == NUL;
      } else if i == ln + 1 {
        var tail := Str(g[ln][b + 1..]);
        TextFromBound(g[ln], b + 1);
        StrNoNul(g[ln][b + 1..]);
        StrCpyFacts(g[ln + 1], tail);
      } else if i > ln + 1 {
        LenBound(g[i - 1]);
        StrNoNul(g[i - 1]);
        StrCpyFacts(g[i], Str(g[i - 1]));
      }
    }
  }

  /** The text of a row read from index x on has at most 79 - x characters. */
  lemma TextFromBound(r: Row, x: nat)
    requires RowOk(r) && x <= COLS
    ensures |Str(r[x..])| <= if x < COLS then COLS - 1 - x else 0
  {
    if x < COLS {
      var t := r[x..];
      assert t[COLS - 1 - x] == NUL;
    }
  }

  /** The source as written: when the break is at 79 the next row is copied
      onto itself and so keeps its old bytes. */
  function WrapAsWritten(g: Grid, ln: nat): Grid
    requires GridOk(g)
  {
    var w := Wrap(g, ln);
    if Wraps(g, ln) && BreakIndex(g[ln]) == COLS - 1 then w[ln + 1 := g[ln + 1]] else w
  }

  // ---- properties ----

  /** The break index is the last space in 1..78, or 79 when there is none. */
  lemma BreakIndexIsLastSpace(row: Row)
    requires |row| == COLS
    ensures var b := BreakIndex(row);
      (1 <= b <= COLS - 2 && row[b] == ' ' && forall k :: b < k <= COLS - 2 ==> row[k] != ' ')
      || (b == COLS - 1 && forall k :: 1 <= k <= COLS - 2 ==> row[k] != ' ')
  {
  }

  /** wrap_line leaves the buffer alone on the last row (and any row number
      past it) and on a row shorter than 79 characters. */
  lemma WrapShortIsNoOp(g: Grid, ln: nat)
    requires GridOk(g)
    requires ln >= ROWS - 1 || Len(g[ln]) < COLS - 1
    ensures Wrap(g, ln) == g && WrapAsWritten(g, ln) == g
  {
  }

  /** The text after the break of a full row. */
  lemma TailText(r: Row, b: nat)
    requires RowOk(r) && Len(r) == COLS - 1 && b < COLS
    ensures Str(r[b + 1..]) == if b < COLS - 1 then Str(r)[b + 1..] else []
  {
    if b < COLS - 1 {
      var tail := r[b + 1..];
      assert forall k :: 0 <= k < COLS - 2 - b ==> tail[k] == r[b + 1 + k];
      assert tail[COLS - 2 - b] == NUL;
      LenIs(tail, COLS - 2 - b);
    }
  }

  lemma WrapRows(g: Grid, ln: nat)
    requires GridOk(g) && ln < ROWS - 1 && Len(g[ln]) >= COLS - 1
    ensures var b := BreakIndex(g[ln]); var w := Wrap(g, ln);
      (forall i :: 0 <= i < ln ==> w[i] == g[i])
      && w[ln] == g[ln][b := NUL]
      && w[ln + 1] == StrCpy(g[ln + 1], Str(g[ln][b + 1..]))
      && (forall i :: ln + 2 <= i < ROWS ==> w[i] == StrCpy(g[i], Str(g[i - 1])))
  {
    assert Wrap(g, ln) == Broken(g, ln, BreakIndex(g[ln]));
  }

  /** What a wrap does to every row: the rows above are untouched, the row is
      cut at the break, the next row receives the text after the break, each
      row further down receives the text of the row above it, and the text of
      the last row is lost. */
  lemma WrapMovesRows(g: Grid, ln: nat)
    requires GridOk(g) && Wraps(g, ln)
    ensures var b := BreakIndex(g[ln]); var w := Wrap(g, ln);
      (forall i :: 0 <= i < ln ==> w[i] == g[i])
      && Len(g[ln]) == COLS - 1
      && Str(w[ln]) == Str(g[ln])[..b]
      && Str(w[ln + 1]) == (if b < COLS - 1 then Str(g[ln])[b + 1..] else [])
      && (forall i :: ln + 2 <= i < ROWS ==> Str(w[i]) == Str(g[i - 1]))
  {
    var b := BreakIndex(g[ln]);
    var w := Wrap(g, ln);
    WrapRows(g, ln);
    LenBound(g[ln]);
    LenAfterNul(g[ln], b);
    TextFromBound(g[ln], b + 1);
    StrNoNul(g[ln][b + 1..]);
    StrCpyFacts(g[ln + 1], Str(g[ln][b + 1..]));
    TailText(g[ln], b);
    forall i | ln + 2 <= i < ROWS
      ensures Str(w[i]) == Str(g[i - 1])
    {
      LenBound(g[i - 1]);
      StrNoNul(g[i - 1]);
      StrCpyFacts(g[i], Str(g[i - 1]));
    }
  }

  /** Wrapping only relocates text: the row's text is the text kept in it,
      the breaking space (when there was one) and the text moved to the next
      row. */
  lemma WrapRelocates(g: Grid, ln: nat)
    requires GridOk(g) && Wraps(g, ln)
    ensures var b := BreakIndex(g[ln]); var w := Wrap(g, ln);
      Str(w[ln]) + (if b < COLS - 1 then [' '] else []) + Str(w[ln + 1]) == Str(g[ln])
  {
    WrapMovesRows(g, ln);
    BreakIndexIsLastSpace(g[ln]);
    var b := BreakIndex(g[ln]);
    var s := Str(g[ln]);
    StrNoNul(g[ln]);
    if b < COLS - 1 {
      assert s[b] == g[ln][b] == ' ';
      SplitAround(s, b);
    } else {
      assert s[..b] == s;
    }
  }

  lemma SplitAround(s: seq<char>, b: nat)
    requires b < |s|
    ensures s[..b] + [s[b]] + s[b + 1..] == s
  {
  }

  /** After a break at a space the row is short, so wrapping it again does
      nothing. After a break at 79 the row still holds 79 characters and a
      second wrap inserts another row. */
  lemma WrapAgain(g: Grid, ln: nat)
    requires GridOk(g) && Wraps(g, ln)
    ensures var w := Wrap(g, ln);
      (BreakIndex(g[ln]) < COLS - 1 ==> Wrap(w, ln) == w)
      && (BreakIndex(g[ln]) == COLS - 1 ==> Wraps(w, ln))
  {
    WrapMovesRows(g, ln);
    var w := Wrap(g, ln);
    StrNoNul(w[ln]);
    StrNoNul(g[ln]);
  }

  /** As written, a row without a space to break at makes the next row keep
      its text while the same text is also shifted into the row after it:
      one line of the document is shown twice. */
  lemma WrapAsWrittenRepeatsNextRow(g: Grid, ln: nat)
    requires GridOk(g) && ln < ROWS - 2 && Wraps(g, ln)
    requires forall k :: 1 <= k <= COLS - 2 ==> g[ln][k] != ' '
    ensures var w := WrapAsWritten(g, ln);
      w[ln + 1] == g[ln + 1] && Str(w[ln + 2]) == Str(g[ln + 1])
      && Str(Wrap(g, ln)[ln + 1]) == []
  {
    BreakIndexIsLastSpace(g[ln]);
    WrapMovesRows(g, ln);
  }
}
