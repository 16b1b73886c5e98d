/** The document buffer of the editor: 21 rows of 80 bytes, each row a C
    string ended by its first NUL. The bytes after that NUL are kept: the
    Right arrow tests the byte under the cursor rather than the row's length,
    so those bytes decide how far right the cursor can move. */
module Buffer {

  /** MAX_LINES: rows in the document buffer. */
  const ROWS: nat := 21
  /** MAX_LINE_LENGTH: bytes per row, the terminating NUL included. */
  const COLS: nat := 80
  const NUL: char := '\0'

  type Row = seq<char>
  type Grid = seq<Row>

  /** strlen: the index of the first NUL, or the whole length when there is none. */
  function Len(s: seq<char>): (n: nat)
    ensures n <= |s|
    ensures forall k :: 0 <= k < n ==> s[k] != NUL
    ensures n < |s| ==> s[n] == NUL
  {
    if s == [] || s[0] == NUL then 0 else 1 + Len(s[1..])
  }

  /** The text a row holds: its bytes before the first NUL. */
  function Str(s: seq<char>): seq<char>
  {
    s[..Len(s)]
  }

  predicate NoNul(s: seq<char>)
  {
    forall k :: 0 <= k < |s| ==> s[k] != NUL
  }

  /** A row as the editor keeps it: 80 bytes whose last byte is NUL, so that
      every string it holds has at most 79 characters. */
  predicate RowOk(r: Row)
  {
    |r| == COLS && r[COLS - 1] == NUL
  }

  predicate GridOk(g: Grid)
  {
    |g| == ROWS && forall y :: 0 <= y < ROWS ==> RowOk(g[y])
  }

  /** `row[0] != '\0'` is false: the row holds the empty string. */
  predicate Empty(r: Row)
  {
    |r| == 0 || r[0] == NUL
  }

  /** strcpy(dst, s): the bytes of s, a NUL, and then dst's own old bytes. */
  function StrCpy(dst: Row, s: seq<char>): Row
    requires |s| < |dst|
  {
    s + [NUL] + dst[|s| + 1..]
  }

  /** One byte of the grid overwritten. */
  function SetChar(g: Grid, y: nat, x: nat, c: char): Grid
    requires y < |g| && x < |g[y]|
  {
    g[y := g[y][x := c]]
  }

  /** The buffer after memset(screen_buffer, 0, ...). */
  function ZeroRow(): (r: Row)
    ensures RowOk(r) && Str(r) == []
  {
    seq(COLS, _ => NUL)
  }

  function ZeroGrid(): (g: Grid)
    ensures GridOk(g)
    ensures forall y :: 0 <= y < ROWS ==> g[y] == ZeroRow()
  {
    seq(ROWS, _ => ZeroRow())
  }

  /** No row's text holds a newline: what save_file can write one line per
      row. */
  predicate NoNewlines(g: Grid)
    requires |g| == ROWS
  {
    forall y :: 0 <= y < ROWS ==> '\n' !in Str(g[y])
  }

  /** The highest row below n that is not empty, or -1 when all are. */
  function LastNonEmpty(g: Grid, n: nat): (r: int)
    requires n <= |g|
    ensures -1 <= r < n
    ensures r >= 0 ==> !Empty(g[r])
    ensures forall y :: r < y < n ==> Empty(g[y])
  {
    if n == 0 then -1
    else if !Empty(g[n - 1]) then n - 1
    else LastNonEmpty(g, n - 1)
  }

  // ---- facts about strlen and strcpy used throughout ----

  lemma LenBound(r: Row)
    requires RowOk(r)
    ensures Len(r) < COLS
  {
    assert r[COLS - 1] == NUL;
  }

  /** strlen of a string with no NUL in it, followed by a NUL. */
  lemma {:induction false} LenOfTerminated(s: seq<char>, rest: seq<char>)
    requires NoNul(s)
    ensures Len(s + [NUL] + rest) == |s|
  {
    if s != [] {
      assert (s + [NUL] + rest)[1..] == s[1..] + [NUL] + rest;
      LenOfTerminated(s[1..], rest);
    }
  }

  /** A copy loop one byte further: the first t + 1 bytes come from a. */
  lemma CopyStep(a: seq<char>, r: Row, t: nat)
    requires t < |a| && t < |r|
    ensures (a[..t] + r[t..])[t := a[t]] == a[..t + 1] + r[t + 1..]
  {
  }

  /** A byte written into a row that was just replaced. */
  lemma SetCharAfterUpdate(g: Grid, y: nat, a: Row, x: nat, c: char)
    requires y < |g| && x < |a|
    ensures SetChar(g[y := a], y, x, c) == g[y := a[x := c]]
  {
  }

  /** A copy loop ended by its NUL is strcpy. */
  lemma CopyEnd(a: seq<char>, r: Row, t: nat)
    requires t <= |a| && t < |r|
    ensures (a[..t] + r[t..])[t := NUL] == StrCpy(r, a[..t])
  {
  }

  /** strcpy of at most 79 characters into a row keeps its final NUL. */
  lemma StrCpyRowOk(dst: Row, s: seq<char>)
    requires RowOk(dst) && |s| < COLS
    ensures RowOk(StrCpy(dst, s))
  {
    if |s| < COLS - 1 {
      assert StrCpy(dst, s)[COLS - 1] == dst[COLS - 1];
    }
  }

  lemma StrCpyFacts(dst: Row, s: seq<char>)
    requires RowOk(dst) && |s| < COLS && NoNul(s)
    ensures RowOk(StrCpy(dst, s))
    ensures Len(StrCpy(dst, s)) == |s|
    ensures Str(StrCpy(dst, s)) == s
  {
    LenOfTerminated(s, dst[|s| + 1..]);
    if |s| < COLS - 1 {
      assert StrCpy(dst, s)[COLS - 1] == dst[COLS - 1];
    }
  }

  lemma StrNoNul(s: seq<char>)
    ensures NoNul(Str(s)) && |Str(s)| == Len(s)
  {
  }

  /** The text of a row after a NUL is written at x. */
  lemma {:induction false} LenAfterNul(r: Row, x: nat)
    requires x < |r|
    ensures Len(r[x := NUL]) == if x < Len(r) then x else Len(r)
    ensures Str(r[x := NUL]) == Str(r)[..if x < Len(r) then x else Len(r)]
  {
    var n := if x < Len(r) then x else Len(r);
    var r' := r[x := NUL];
    assert forall k :: 0 <= k < n ==> r'[k] == r[k];
    LenIs(r', n);
  }

  /** strlen is n when the bytes before n are not NUL and byte n is. */
  lemma {:induction false} LenIs(s: seq<char>, n: nat)
    requires n <= |s|
    requires forall k :: 0 <= k < n ==> s[k] != NUL
    requires n < |s| ==> s[n] == NUL
    ensures Len(s) == n
  {
    if n > 0 {
      LenIs(s[1..], n - 1);
    }
  }
}
