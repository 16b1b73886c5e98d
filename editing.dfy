/** handle_input for the editing keys: Enter, Del, the four cursor keys and
    every other key, which is stored as a character. The function keys (F1
    save, F3 load, F5 new) are dispatched to the dialogs of module Files.

    There is no insert mode: a typed character overwrites the byte at the
    cursor and ends the row right after it; Del ends the row at the new
    cursor. Up and Down never clamp the column to the row's length. */
module Editing {
  import opened Buffer

  /** The codes of the keys the switch of handle_input names: CH_ENTER is
      written '\n' here, as the file's newlines are; the others are the values
      of cc65's cbm.h (CH_CURS_DOWN 17, CH_DEL 20, CH_CURS_RIGHT 29, CH_F1 133,
      CH_F3 134, CH_F5 135, CH_CURS_UP 145, CH_CURS_LEFT 157). */
  predicate NamedCode(c: char)
  {
    c == '\n' || c as int in {17, 20, 29, 133, 134, 135, 145, 157}
  }

  /** A byte cgetc can return that no case of the switch names. */
  predicate CharCode(c: char)
  {
    c as int < 256 && !NamedCode(c)
  }

  /** A key as cgetc delivers it, decoded. `Other(c)` is every key code the
      switch has no case for; it is stored as the character c. */
  datatype Key =
    | Enter | Del | CursorLeft | CursorRight | CursorUp | CursorDown
    | SaveKey | LoadKey | NewKey
    | Other(c: char)
  {
    predicate Valid()
    {
      Other? ==> CharCode(c)
    }

    predicate IsEdit()
    {
      !(SaveKey? || LoadKey? || NewKey?) && Valid()
    }
  }

  /** The buffer and cursor_x / cursor_y. */
  datatype EditState = EditState(grid: Grid, x: nat, y: nat)

  /** What every operation keeps: 21 rows of 80 bytes ending in NUL, the
      cursor inside the 80 x 21 area with column at most 79. */
  ghost predicate StateOk(s: EditState)
  {
    GridOk(s.grid) && s.x < COLS && s.y < ROWS
  }

  function CurrentLine(s: EditState): Row
    requires StateOk(s)
  {
    s.grid[s.y]
  }

  /** One editing key. */
  function Step(s: EditState, k: Key): (t: EditState)
    requires StateOk(s) && k.IsEdit()
    ensures StateOk(t)
  {
    LenBound(CurrentLine(s));
    match k
    case Enter =>
      if s.y < ROWS - 1 then s.(y := s.y + 1, x := 0) else s
    case Del =>
      if s.x > 0 then
        s.(x := s.x - 1, grid := SetChar(s.grid, s.y, s.x - 1, NUL))
      else if s.y > 0 then
        var x := Len(s.grid[s.y - 1]);
        LenBound(s.grid[s.y - 1]);
        s.(y := s.y - 1, x := x, grid := if x < COLS - 1 then SetChar(s.grid, s.y - 1, x, NUL) else s.grid)
      else s
    case CursorLeft =>
      if s.x > 0 then s.(x := s.x - 1) else s
    case CursorRight =>
      if s.x < COLS - 1 && CurrentLine(s)[s.x] != NUL then s.(x := s.x + 1) else s
    case CursorUp =>
      if s.y > 0 then s.(y := s.y - 1) else s
    case CursorDown =>
      if s.y < ROWS - 1 then s.(y := s.y + 1) else s
    case Other(c) =>
      if s.x < COLS - 1 then
        s.(grid := SetChar(SetChar(s.grid, s.y, s.x, c), s.y, s.x + 1, NUL), x := s.x + 1)
      else s
  }

  /** A bounded run of main's loop over editing keys. */
  function Run(s: EditState, keys: seq<Key>): (t: EditState)
    requires StateOk(s) && forall i :: 0 <= i < |keys| ==> keys[i].IsEdit()
    ensures StateOk(t)
    decreases |keys|
  {
    if keys == [] then s else Run(Step(s, keys[0]), keys[1..])
  }

  predicate SameBytesExcept(g: Grid, h: Grid, y: nat, x1: nat, x2: nat)
    requires |g| == |h| == ROWS && forall i :: 0 <= i < ROWS ==> |g[i]| == |h[i]| == COLS
  {
    forall i, j :: 0 <= i < ROWS && 0 <= j < COLS && !(i == y && (j == x1 || j == x2)) ==> g[i][j] == h[i][j]
  }

  // ---- properties ----

  /** A typed character. Below column 79 it overwrites the byte at the cursor
      and a NUL goes right after it, so the row now ends there: typing in the
      middle of a row cuts off the rest. When the cursor was at or before the
      end of the row the new length is the old column plus one; a character
      typed beyond the end is stored but stays invisible. At column 79 nothing
      happens. No other byte changes. */
  lemma TypedCharacter(s: EditState, c: char)
    requires StateOk(s) && CharCode(c)
    ensures var t := Step(s, Other(c)); var r := CurrentLine(s);
      t.y == s.y
      && (s.x == COLS - 1 ==> t == s)
      && (s.x < COLS - 1 ==>
            t.x == s.x + 1
            && t.grid[s.y][s.x] == c && t.grid[s.y][s.x + 1] == NUL
            && SameBytesExcept(s.grid, t.grid, s.y, s.x, s.x + 1)
            && (c != NUL && s.x <= Len(r) ==> Len(CurrentLine(t)) == s.x + 1 && Str(CurrentLine(t)) == Str(r)[..s.x] + [c])
            && (s.x > Len(r) ==> Str(CurrentLine(t)) == Str(r)))
  {
    var r := CurrentLine(s);
    if s.x < COLS - 1 {
      var t := Step(s, Other(c));
      var r' := r[s.x := c][s.x + 1 := NUL];
      assert t.grid == s.grid[s.y := r'];
      TypedRow(r, s.x, c);
    }
  }

  /** The row after a character is typed at column x below 79. */
  lemma TypedRow(r: Row, x: nat, c: char)
    requires RowOk(r) && x < COLS - 1
    ensures var r' := r[x := c][x + 1 := NUL];
      (c != NUL && x <= Len(r) ==> Len(r') == x + 1 && Str(r') == Str(r)[..x] + [c])
      && (x > Len(r) ==> Str(r') == Str(r))
  {
    var r' := r[x := c][x + 1 := NUL];
    LenBound(r);
    if c != NUL && x <= Len(r) {
      assert forall k :: 0 <= k < x ==> r'[k] == r[k];
      LenIs(r', x + 1);
      assert Str(r') == Str(r)[..x] + [c];
    }
    if x > Len(r) {
      assert forall k :: 0 <= k <= Len(r) ==> r'[k] == r[k];
      LenIs(r', Len(r));
    }
  }

  /** Del. Away from column 0 it moves left and ends the row at the new
      column: the row keeps at most that many characters. At column 0 of a
      lower row the cursor goes to the end of the row above and the buffer is
      unchanged, since the NUL is written where strlen found one. At (0,0)
      nothing happens. */
  lemma DeleteKey(s: EditState)
    requires StateOk(s)
    ensures var t := Step(s, Del); var r := CurrentLine(s);
      (s.x > 0 ==>
         t.y == s.y && t.x == s.x - 1
         && t.grid == s.grid[s.y := r[s.x - 1 := NUL]]
         && Len(CurrentLine(t)) == (if s.x - 1 < Len(r) then s.x - 1 else Len(r))
         && Str(CurrentLine(t)) == Str(r)[..Len(CurrentLine(t))]
         && forall i :: 0 <= i < ROWS && i != s.y ==> t.grid[i] == s.grid[i])
      && (s.x == 0 && s.y > 0 ==>
         t.grid == s.grid && t.y == s.y - 1 && t.x == Len(s.grid[s.y - 1]))
      && (s.x == 0 && s.y == 0 ==> t == s)
  {
    var r := CurrentLine(s);
    if s.x > 0 {
      LenAfterNul(r, s.x - 1);
    } else if s.y > 0 {
      var above := s.grid[s.y - 1];
      var x := Len(above);
      LenBound(above);
      assert above[x := NUL] == above;
    }
  }

  /** Enter and the cursor keys never change the buffer. Enter goes to the
      start of the next row (but not below row 20); Up and Down keep the
      column even beyond the end of the new row; Right moves only onto a byte
      that is not NUL, which may be a stale byte behind the row's end. */
  lemma CursorKeys(s: EditState, k: Key)
    requires StateOk(s)
    requires k in {Enter, CursorLeft, CursorRight, CursorUp, CursorDown}
    ensures var t := Step(s, k);
      t.grid == s.grid
      && (k == Enter ==> (t.x, t.y) == (if s.y < ROWS - 1 then (0, s.y + 1) else (s.x, s.y)))
      && (k == CursorUp ==> t.x == s.x && t.y == (if s.y > 0 then s.y - 1 else 0))
      && (k == CursorDown ==> t.x == s.x && t.y == (if s.y < ROWS - 1 then s.y + 1 else s.y))
      && (k == CursorLeft ==> t.y == s.y && t.x == (if s.x > 0 then s.x - 1 else 0))
      && (k == CursorRight ==>
            t.y == s.y && (t.x == s.x + 1 <==> s.x < COLS - 1 && CurrentLine(s)[s.x] != NUL)
            && s.x <= t.x <= s.x + 1)
  {
  }

  /** A character other than a newline, typed into a row whose text has no
      newline, leaves it without one. */
  lemma TypedRowNoNewline(r: Row, x: nat, c: char)
    requires RowOk(r) && x < COLS - 1 && c != '\n' && '\n' !in Str(r)
    ensures '\n' !in Str(r[x := c][x + 1 := NUL])
  {
    if c == NUL {
      TypedNulNoNewline(r, x);
    } else {
      TypedRow(r, x, c);
      if x <= Len(r) {
        PrefixNoNewline(Str(r), x);
      }
    }
  }

  /** A NUL typed at x writes NUL at x and x + 1: the text left is a prefix. */
  lemma TypedNulNoNewline(r: Row, x: nat)
    requires RowOk(r) && x < COLS - 1 && '\n' !in Str(r)
    ensures '\n' !in Str(r[x := NUL][x + 1 := NUL])
  {
    var r1 := r[x + 1 := NUL];
    assert r[x := NUL][x + 1 := NUL] == r1[x := NUL];
    LenAfterNul(r, x + 1);
    PrefixNoNewline(Str(r), Len(r1));
    LenAfterNul(r1, x);
    PrefixNoNewline(Str(r1), Len(r1[x := NUL]));
  }

  lemma PrefixNoNewline(t: seq<char>, n: nat)
    requires n <= |t| && '\n' !in t
    ensures '\n' !in t[..n]
  {
  }

  /** No editing key puts a newline into the text of a row: Enter only
      moves the cursor, and the characters stored are the other codes. */
  lemma StepKeepsNoNewlines(s: EditState, k: Key)
    requires StateOk(s) && k.IsEdit() && NoNewlines(s.grid)
    ensures NoNewlines(Step(s, k).grid)
  {
    var t := Step(s, k);
    var r := CurrentLine(s);
    match k
    case Del =>
      DeleteKey(s);
      if s.x > 0 {
        var n := Len(CurrentLine(t));
        assert forall j :: 0 <= j < n ==> Str(CurrentLine(t))[j] == Str(r)[j];
        assert '\n' !in Str(CurrentLine(t));
      }
    case Other(c) =>
      if s.x < COLS - 1 {
        assert t.grid == s.grid[s.y := r[s.x := c][s.x + 1 := NUL]];
        TypedRowNoNewline(r, s.x, c);
      }
    case _ =>
  }

  /** Hence no run of editing keys does. */
  lemma {:induction false} RunKeepsNoNewlines(s: EditState, keys: seq<Key>)
    requires StateOk(s) && forall i :: 0 <= i < |keys| ==> keys[i].IsEdit()
    requires NoNewlines(s.grid)
    ensures NoNewlines(Run(s, keys).grid)
    decreases |keys|
  {
    if keys != [] {
      StepKeepsNoNewlines(s, keys[0]);
      RunKeepsNoNewlines(Step(s, keys[0]), keys[1..]);
    }
  }

  /** A buffer whose row 0 holds text and whose other bytes are NUL. */
  function OneRow(text: seq<char>): (g: Grid)
    requires |text| < COLS && NoNul(text)
    ensures GridOk(g) && Str(g[0]) == text
  {
    StrCpyFacts(ZeroRow(), text);
    ZeroGrid()[0 := StrCpy(ZeroRow(), text)]
  }

  /** Typing x at column 1 of "abc" leaves "ax": the rest of the row is cut. */
  lemma TypingMidRowTruncates()
    ensures Str(CurrentLine(Step(EditState(OneRow("abc"), 1, 0), Other('x')))) == "ax"
  {
    var s := EditState(OneRow("abc"), 1, 0);
    TypedCharacter(s, 'x');
  }

  /** Typing x at column 2 of "abc" leaves "abx": the byte under the cursor
      is replaced, and the NUL written after it was already there. */
  lemma TypingAtLastCharacter()
    ensures Str(CurrentLine(Step(EditState(OneRow("abc"), 2, 0), Other('x')))) == "abx"
  {
    var s := EditState(OneRow("abc"), 2, 0);
    TypedCharacter(s, 'x');
  }

  /** Del at column 3 of "abcdef" leaves "ab". */
  lemma DeleteMidRowTruncates()
    ensures Str(CurrentLine(Step(EditState(OneRow("abcdef"), 3, 0), Del))) == "ab"
  {
    var s := EditState(OneRow("abcdef"), 3, 0);
    DeleteKey(s);
  }
}
