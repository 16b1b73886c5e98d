/** The editor itself: screen_buffer with cursor_x and cursor_y as the state
    of a class, and the source's routines as methods on it. Each method is
    proved against the function of modules Editing, Wrap, Markup and Files
    that says what it does to the state. */
module Session {
  import opened Buffer
  import opened Markup
  import opened Wrap
  import opened Editing
  import opened Files

  /** What the function keys' dialogs meet: the keys typed into the dialog,
      whether fopen for writing succeeds, whether the file then opens again
      for reading, the entries of the disk directory, and the files on disk
      by name. */
  datatype Env = Env(
    keys: seq<Key>,
    created: bool,
    reopened: bool,
    directory: seq<DirEntry>,
    disk: map<seq<char>, seq<char>>)
  {
    /** The dialog keys come from cgetc like every other key. */
    predicate Valid() { forall k :: k in keys ==> k.Valid() }
  }

  /** One key of handle_input: F1, F3 and F5 open their dialogs, every other
      key is an editing key. A dialog whose keys run out before it is
      answered has changed nothing yet. */
  function Dispatch(s: EditState, k: Key, env: Env): (t: EditState)
    requires StateOk(s) && k.Valid() && env.Valid()
    ensures StateOk(t)
  {
    match k
    case SaveKey => AfterSave(s, env.keys, env.created, env.reopened)
    case LoadKey => AfterLoad(s, env.directory, env.keys, env.disk)
    case NewKey => if env.keys == [] then s else AfterNew(s, env.keys[0])
    case _ => Step(s, k)
  }

  /** No key of handle_input puts a newline into the text of a row: the
      editing keys store only other codes, and save_file and load_file read
      rows with fgets, whose newline the loop removes. */
  lemma DispatchKeepsNoNewlines(s: EditState, k: Key, env: Env)
    requires StateOk(s) && k.Valid() && env.Valid() && NoNewlines(s.grid)
    ensures NoNewlines(Dispatch(s, k, env).grid)
  {
    assert NoNewlines(ZeroGrid());
    match k
    case SaveKey =>
      var f := SavedFile(s, env.keys, env.created);
      if f.Some? {
        ReadAsWrittenNoNewlines(ZeroGrid(), f.value.text, 0);
      }
    case LoadKey =>
      var files := ListFiles(env.directory);
      if |files| > 0 {
        var choice := Browse(env.keys, |files|, 0);
        if choice.Some? && choice.value.Open? && files[choice.value.index].name in env.disk {
          ReadAsWrittenNoNewlines(s.grid, env.disk[files[choice.value.index].name], 0);
        }
      }
    case NewKey =>
    case _ =>
      StepKeepsNoNewlines(s, k);
  }

  /** F1 on a document whose first row holds 79 characters and whose second
      row is not empty, with a name typed and the file created and opened
      again: after the reload row 0 is back, row 1 is empty and row 2 holds
      the text of row 1. */
  lemma SaveSplitsFullRow(s: EditState, env: Env)
    requires StateOk(s) && NoNewlines(s.grid) && env.Valid()
    requires EnterName(env.keys, []).Some? && env.created && env.reopened
    requires Len(s.grid[0]) == COLS - 1 && !Empty(s.grid[1])
    ensures var t := Dispatch(s, SaveKey, env);
      t.x == 0 && t.y == 0
      && Str(t.grid[0]) == Str(s.grid[0]) && Str(t.grid[1]) == [] && Str(t.grid[2]) == Str(s.grid[1])
  {
    assert Dispatch(s, SaveKey, env).grid == ReadRowsAsWritten(ZeroGrid(), SaveText(s.grid, s.y), 0);
    SaveReloadAsWrittenInsertsRow(s.grid, s.y);
  }

  /** Where apply_formatting leaves the cursor: on the highest row that is not
      empty (row 0 when all are), just past its last character. */
  function EndOfText(g: Grid): (p: (nat, nat))
    requires GridOk(g)
    ensures p.1 < ROWS && p.0 == Len(g[p.1]) && p.0 < COLS
    ensures p.1 > 0 ==> !Empty(g[p.1])
    ensures forall y :: p.1 < y < ROWS ==> Empty(g[y])
  {
    var last := LastNonEmpty(g, ROWS);
    var y: nat := if last >= 0 then last else 0;
    LenBound(g[y]);
    (Len(g[y]), y)
  }

  /** Rows ln+1..i-1 as the downward copy loop of wrap_line leaves them once
      it has reached row i: every row below i holds the text of the row
      above it. */
  function ShiftedBelow(g: Grid, i: nat): (h: Grid)
    requires GridOk(g)
    ensures |h| == ROWS
  {
    seq(ROWS, r requires 0 <= r < ROWS =>
      if r > i && r > 0 then (LenBound(g[r - 1]); StrCpy(g[r], Str(g[r - 1]))) else g[r])
  }

  class Editor {
    /** screen_buffer[21][80]. */
    const buf: array2<char>
    var cursorX: nat
    var cursorY: nat

    predicate Dims()
    {
      buf.Length0 == ROWS && buf.Length1 == COLS
    }

    /** Row y of the buffer, as a sequence of its 80 bytes. */
    function RowAt(y: nat): Row
      requires Dims() && y < ROWS
      reads buf
    {
      seq(COLS, x requires 0 <= x < COLS reads buf => buf[y, x])
    }

    ghost function Grid(): Grid
      requires Dims()
      reads buf
    {
      seq(ROWS, y requires 0 <= y < ROWS reads buf => RowAt(y))
    }

    ghost function State(): EditState
      requires Dims()
      reads this, buf
    {
      EditState(Grid(), cursorX, cursorY)
    }

    ghost predicate Valid()
      reads this, buf
    {
      Dims() && StateOk(State())
    }

    /** init_screen: the buffer zeroed and the cursor at (0, 0). */
    constructor ()
      ensures Valid() && State() == EditState(ZeroGrid(), 0, 0)
    {
      buf := new char[ROWS, COLS]((_, _) => NUL);
      cursorX, cursorY := 0, 0;
      new;
      forall y | 0 <= y < ROWS
        ensures RowAt(y) == ZeroRow()
      {
        assert forall x | 0 <= x < COLS :: RowAt(y)[x] == NUL;
      }
      assert Grid() == ZeroGrid();
    }

    /** One byte of the buffer written. */
    method Put(y: nat, x: nat, c: char)
      requires Dims() && y < ROWS && x < COLS
      modifies buf
      ensures Grid() == SetChar(old(Grid()), y, x, c)
    {
      ghost var g := Grid();
      buf[y, x] := c;
      ghost var h := SetChar(g, y, x, c);
      forall i | 0 <= i < ROWS
        ensures RowAt(i) == h[i]
      {
        assert forall j | 0 <= j < COLS :: RowAt(i)[j] == h[i][j];
      }
      assert Grid() == h;
    }

    /** One byte of the buffer read. */
    method Get(y: nat, x: nat) returns (c: char)
      requires Dims() && y < ROWS && x < COLS
      ensures c == Grid()[y][x]
    {
      c := buf[y, x];
      assert Grid()[y][x] == RowAt(y)[x];
    }

    /** strlen(screen_buffer[y]). */
    method StrLen(y: nat) returns (n: nat)
      requires Dims() && y < ROWS && RowOk(RowAt(y))
      ensures n == Len(RowAt(y)) && n < COLS
    {
      LenBound(RowAt(y));
      n := 0;
      while buf[y, n] != NUL
        invariant n <= Len(RowAt(y))
        decreases COLS - n
      {
        assert RowAt(y)[n] == buf[y, n];
        n := n + 1;
      }
      assert RowAt(y)[n] == buf[y, n];
    }

    /** memset(screen_buffer, 0, sizeof(screen_buffer)). */
    method Clear()
      requires Dims()
      modifies buf
      ensures Grid() == ZeroGrid()
    {
      for y := 0 to ROWS
        invariant forall i, j :: 0 <= i < y && 0 <= j < COLS ==> buf[i, j] == NUL
      {
        for x := 0 to COLS
          invariant forall i, j :: 0 <= i < y && 0 <= j < COLS ==> buf[i, j] == NUL
          invariant forall j :: 0 <= j < x ==> buf[y, j] == NUL
        {
          buf[y, x] := NUL;
        }
      }
      forall y | 0 <= y < ROWS
        ensures RowAt(y) == ZeroRow()
      {
        assert forall x | 0 <= x < COLS :: RowAt(y)[x] == NUL;
      }
      assert Grid() == ZeroGrid();
    }

    /** handle_input for one key: the key's effect on the buffer and cursor,
        the file save_file wrote (F1 only), and the cells that
        format_current_line then paints for the cursor's row. */
    method HandleInput(k: Key, env: Env) returns (saved: Option<File>, painted: seq<Cell>)
      requires Valid() && k.Valid() && env.Valid()
      modifies this, buf
      ensures Valid() && State() == Dispatch(old(State()), k, env)
      ensures saved == if k == SaveKey then SavedFile(old(State()), env.keys, env.created) else None
      ensures painted == Tokenize(CurrentLine(State()))
    {
      saved := ApplyKey(k, env);
      painted := FormatCurrentLine();
    }

    /** The switch of handle_input. */
    method ApplyKey(k: Key, env: Env) returns (saved: Option<File>)
      requires Valid() && k.Valid() && env.Valid()
      modifies this, buf
      ensures Valid() && State() == Dispatch(old(State()), k, env)
      ensures saved == if k == SaveKey then SavedFile(old(State()), env.keys, env.created) else None
    {
      saved := None;
      match k {
        case SaveKey =>
          saved := SaveFile(env.keys, env.created, env.reopened);
        case LoadKey =>
          LoadFile(env.directory, env.keys, env.disk);
        case NewKey =>
          NewFile(env.keys);
        case _ =>
          EditKey(k);
      }
    }

    /** The cases of handle_input's switch for the editing keys. */
    method EditKey(k: Key)
      requires Valid() && k.IsEdit()
      modifies this, buf
      ensures Valid() && State() == Step(old(State()), k)
    {
      match k {
        case Enter =>
          if cursorY < ROWS - 1 {
            cursorY := cursorY + 1;
            cursorX := 0;
          }
        case Del =>
          DeleteChar();
        case CursorLeft =>
          if cursorX > 0 {
            cursorX := cursorX - 1;
          }
        case CursorRight =>
          assert RowAt(cursorY) == Grid()[cursorY];
          if cursorX < COLS - 1 && buf[cursorY, cursorX] != NUL {
            cursorX := cursorX + 1;
          }
        case CursorUp =>
          if cursorY > 0 {
            cursorY := cursorY - 1;
          }
        case CursorDown =>
          if cursorY < ROWS - 1 {
            cursorY := cursorY + 1;
          }
        case Other(c) =>
          TypeChar(c);
      }
    }

    /** CH_DEL. */
    method DeleteChar()
      requires Valid()
      modifies this, buf
      ensures Valid() && State() == Step(old(State()), Del)
    {
      if cursorX > 0 {
        cursorX := cursorX - 1;
        Put(cursorY, cursorX, NUL);
      } else if cursorY > 0 {
        cursorY := cursorY - 1;
        assert RowAt(cursorY) == Grid()[cursorY];
        cursorX := StrLen(cursorY);
        if cursorX < COLS - 1 {
          Put(cursorY, cursorX, NUL);
        }
      }
    }

    /** The default case: the key is stored as a character. */
    method TypeChar(c: char)
      requires Valid() && CharCode(c)
      modifies this, buf
      ensures Valid() && State() == Step(old(State()), Other(c))
    {
      if cursorX < COLS - 1 {
        Put(cursorY, cursorX, c);
        cursorX := cursorX + 1;
        Put(cursorY, cursorX, NUL);
      }
    }

    /** format_current_line: the colours of the cursor's row. */
    method FormatCurrentLine() returns (cells: seq<Cell>)
      requires Valid()
      ensures cells == Tokenize(CurrentLine(State()))
    {
      assert RowAt(cursorY) == Grid()[cursorY];
      cells := Format(RowAt(cursorY));
    }

    /** format_line_without_cursor: the colours of row n. */
    method FormatLineWithoutCursor(n: nat) returns (cells: seq<Cell>)
      requires Valid() && n < ROWS
      ensures cells == Tokenize(Grid()[n])
    {
      assert RowAt(n) == Grid()[n];
      cells := Format(RowAt(n));
    }

    /** strcpy(screen_buffer[dy], &screen_buffer[sy][sx]), reading no further
        than the end of row sy: from sx = 80 on nothing is copied. */
    method CopyString(dy: nat, sy: nat, sx: nat)
      requires Valid() && dy < ROWS && sy < ROWS && dy != sy && sx <= COLS
      modifies buf
      ensures Grid() == old(Grid())[dy := StrCpy(old(Grid())[dy], Str(old(Grid())[sy][sx..]))]
    {
      ghost var g := Grid();
      ghost var src := g[sy][sx..];
      TextFromBound(g[sy], sx);
      var k := 0;
      assert src[..0] + g[dy][0..] == g[dy];
      assert g[dy := g[dy]] == g;
      while sx + k < COLS
        invariant sx + k <= COLS && k <= Len(src)
        invariant Grid() == g[dy := src[..k] + g[dy][k..]]
        decreases COLS - k
      {
        var c := Get(sy, sx + k);
        assert c == src[k];
        if c == NUL {
          break;
        }
        ghost var row := src[..k] + g[dy][k..];
        Put(dy, k, c);
        SetCharAfterUpdate(g, dy, row, k, c);
        CopyStep(src, g[dy], k);
        k := k + 1;
      }
      LenIs(src, k);
      ghost var row := src[..k] + g[dy][k..];
      Put(dy, k, NUL);
      SetCharAfterUpdate(g, dy, row, k, NUL);
      CopyEnd(src, g[dy], k);
    }

    /** The scan of wrap_line for the last space of row ln. */
    method FindBreak(ln: nat) returns (b: nat)
      requires Dims() && ln < ROWS
      ensures b == BreakIndex(Grid()[ln])
    {
      assert RowAt(ln) == Grid()[ln];
      b := 0;
      for i := 0 to COLS - 1
        invariant b == LastSpace(RowAt(ln), i)
      {
        if buf[ln, i] == ' ' {
          b := i;
        }
      }
      if b == 0 {
        b := COLS - 1;
      }
    }

    /** The downward copy loop of wrap_line: from row 20 up to row ln+2, each
        row receives the text of the row above it. */
    method ShiftDown(ln: nat)
      requires Valid() && ln < ROWS - 1
      modifies buf
      ensures Valid() && Grid() == ShiftedBelow(old(Grid()), ln + 1)
    {
      ghost var g := Grid();
      var i := ROWS - 1;
      assert ShiftedBelow(g, i) == g;
      while i > ln + 1
        invariant ln + 1 <= i <= ROWS - 1
        invariant Grid() == ShiftedBelow(g, i) && GridOk(Grid())
      {
        assert Grid()[i - 1] == g[i - 1] && Grid()[i] == g[i];
        assert g[i - 1][0..] == g[i - 1];
        CopyString(i, i - 1, 0);
        ShiftedStep(g, i);
        ShiftedRowsOk(g, i - 1);
        i := i - 1;
      }
    }

    /** wrap_line(ln), with the copy of the text after a break at 79 reading
        the empty string (see Wrap.WrapAsWritten for the source's copy). */
    method WrapLine(ln: nat)
      requires Valid()
      modifies buf
      ensures Valid() && Grid() == Wrap.Wrap(old(Grid()), ln)
    {
      ghost var g := Grid();
      if ln >= ROWS - 1 {
        return;
      }
      assert RowAt(ln) == g[ln];
      var len := StrLen(ln);
      if len < COLS - 1 {
        return;
      }
      var b := FindBreak(ln);
      ShiftDown(ln);
      ghost var h := Grid();
      assert h[ln] == g[ln] && h[ln + 1] == g[ln + 1];
      CopyString(ln + 1, ln, b + 1);
      Put(ln, b, NUL);
      WrapIsShiftThenCopy(g, ln);
    }

    /** save_file: the filename dialog, the rows written, and the reload that
        replaces the buffer with what was written. */
    method SaveFile(keys: seq<Key>, created: bool, reopened: bool) returns (file: Option<File>)
      requires Valid()
      modifies this, buf
      ensures Valid() && State() == AfterSave(old(State()), keys, created, reopened)
      ensures file == SavedFile(old(State()), keys, created)
    {
      var name := ReadFilename(keys);
      if name.None? || !created {
        return None;
      }
      var text := WriteRows();
      file := Some(File(name.value, text));
      if reopened {
        Clear();
        cursorX, cursorY := 0, 0;
        ReadFile(text);
        cursorY := 0;
      }
    }

    /** The loop of save_file that writes the rows. */
    method WriteRows() returns (text: seq<char>)
      requires Valid()
      ensures text == SaveText(Grid(), cursorY)
    {
      ghost var g := Grid();
      text := [];
      for i := 0 to ROWS
        invariant text == Join(Lines(g, WrittenRows(g, cursorY, i)))
      {
        SaveTextStep(g, cursorY, i);
        assert RowAt(i) == g[i];
        if buf[i, 0] != NUL {
          var n := StrLen(i);
          assert Written(g, cursorY, i) && RowAt(i)[..n] == Str(g[i]);
          text := text + (RowAt(i)[..n] + ['\n']);
        } else if i < cursorY {
          assert Len(g[i]) == 0 && Str(g[i]) + ['\n'] == ['\n'];
          text := text + ['\n'];
        }
      }
    }

    /** fgets(screen_buffer[y], 80, fp) on the unread text: takes up to 79
        characters, stopping after a newline, stores them in row y and ends
        them with a NUL. */
    method Fgets(y: nat, text: seq<char>) returns (t: nat)
      requires Dims() && y < ROWS
      modifies buf
      ensures t == FgetsCount(text, COLS)
      ensures Grid() == old(Grid())[y := StrCpy(old(Grid())[y], text[..t])]
    {
      t := FgetsCount(text, COLS);
      StoreString(y, text[..t]);
    }

    /** The characters of s stored from column 0 of row y on, followed by a
        NUL. */
    method StoreString(y: nat, s: seq<char>)
      requires Dims() && y < ROWS && |s| < COLS
      modifies buf
      ensures Grid() == old(Grid())[y := StrCpy(old(Grid())[y], s)]
    {
      ghost var g := Grid();
      assert s[..0] + g[y][0..] == g[y];
      assert g[y := g[y]] == g;
      for k := 0 to |s|
        invariant Grid() == g[y := s[..k] + g[y][k..]]
      {
        ghost var row := s[..k] + g[y][k..];
        Put(y, k, s[k]);
        SetCharAfterUpdate(g, y, row, k, s[k]);
        CopyStep(s, g[y], k);
      }
      ghost var row := s + g[y][|s|..];
      assert s[..|s|] == s;
      Put(y, |s|, NUL);
      SetCharAfterUpdate(g, y, row, |s|, NUL);
      CopyEnd(s, g[y], |s|);
    }

    /** One turn of the read loop: fgets into row i, the trailing newline
        removed; returns the unread rest of the text. */
    method ReadLine(i: nat, text: seq<char>) returns (rest: seq<char>)
      requires Valid() && i < ROWS && text != []
      modifies buf
      ensures Valid() && Grid() == old(Grid())[i := FillRow(old(Grid())[i], text[..FgetsCount(text, COLS)])]
      ensures rest == text[FgetsCount(text, COLS)..]
    {
      ghost var g := Grid();
      var t := Fgets(i, text);
      StrCpyRowOk(g[i], text[..t]);
      assert RowAt(i) == Grid()[i];
      var len := StrLen(i);
      if len > 0 && buf[i, len - 1] == '\n' {
        Put(i, len - 1, NUL);
      }
      assert Grid()[i] == FillRow(g[i], text[..t]);
      rest := text[t..];
    }

    /** The read loop shared by save_file and load_file: rows from 0 on
        receive what fgets returns; the rows after the last line read keep
        their bytes. */
    method ReadFile(text: seq<char>)
      requires Valid()
      modifies buf
      ensures Valid() && Grid() == ReadRowsAsWritten(old(Grid()), text, 0)
    {
      var i := 0;
      var rest := text;
      while i < ROWS && rest != []
        invariant i <= ROWS && Valid()
        invariant ReadRowsAsWritten(Grid(), rest, i) == ReadRowsAsWritten(old(Grid()), text, 0)
        decreases |rest|
      {
        ghost var g, unread := Grid(), rest;
        rest := ReadLine(i, rest);
        assert ReadRowsAsWritten(g, unread, i) == ReadRowsAsWritten(Grid(), rest, i + 1);
        i := i + 1;
      }
    }

    /** load_file: the directory listing, the browser and the read into a
        buffer that is not cleared first. */
    method LoadFile(dir: seq<DirEntry>, keys: seq<Key>, disk: map<seq<char>, seq<char>>)
      requires Valid()
      modifies this, buf
      ensures Valid() && State() == AfterLoad(old(State()), dir, keys, disk)
    {
      var files := ReadDirectory(dir);
      if |files| == 0 {
        return;
      }
      var choice := BrowseFiles(keys, |files|);
      if choice.Some? && choice.value.Open? {
        var name := files[choice.value.index].name;
        if name in disk {
          ReadFile(disk[name]);
          cursorX, cursorY := 0, 0;
        }
      }
    }

    /** new_file: the first key typed answers the question. */
    method NewFile(keys: seq<Key>)
      requires Valid()
      modifies this, buf
      ensures Valid() && State() == if keys == [] then old(State()) else AfterNew(old(State()), keys[0])
    {
      if keys == [] {
        return;
      }
      ghost var g := Grid();
      if !IsYes(keys[0]) {
        for i := 0 to ROWS
          invariant Grid() == g && cursorX == old(cursorX)
          invariant var last := LastNonEmpty(g, i); cursorY == if last >= 0 then last else old(cursorY)
        {
          assert RowAt(i) == g[i];
          if buf[i, 0] != NUL {
            cursorY := i;
          }
        }
        return;
      }
      Clear();
      cursorX := 0;
      cursorY := 0;
    }

    /** The cursor placement that ends apply_formatting. */
    method ApplyFormatting()
      requires Valid()
      modifies this
      ensures Valid() && Grid() == old(Grid()) && (cursorX, cursorY) == EndOfText(Grid())
    {
      ghost var g := Grid();
      cursorY := 0;
      for i := 0 to ROWS
        invariant var last := LastNonEmpty(g, i); cursorY == if last >= 0 then last else 0
      {
        assert RowAt(i) == g[i];
        if buf[i, 0] != NUL {
          cursorY := i;
        }
      }
      assert RowAt(cursorY) == g[cursorY];
      cursorX := StrLen(cursorY);
    }
  }

  /** wrap_line's three steps (shift the lower rows, copy the tail, cut the
      row) give `Wrap`. */
  lemma WrapIsShiftThenCopy(g: Grid, ln: nat)
    requires GridOk(g) && Wrap.Wraps(g, ln)
    ensures var b := BreakIndex(g[ln]); var h := ShiftedBelow(g, ln + 1);
      SetChar(h[ln + 1 := StrCpy(g[ln + 1], Str(g[ln][b + 1..]))], ln, b, NUL) == Wrap.Wrap(g, ln)
  {
    var b := BreakIndex(g[ln]);
    var h := ShiftedBelow(g, ln + 1);
    var v := SetChar(h[ln + 1 := StrCpy(g[ln + 1], Str(g[ln][b + 1..]))], ln, b, NUL);
    var w := Wrap.Wrap(g, ln);
    WrapRows(g, ln);
    forall i | 0 <= i < ROWS
      ensures v[i] == w[i]
    {
      if i > ln + 1 {
        LenBound(g[i - 1]);
        assert h[i] == StrCpy(g[i], Str(g[i - 1]));
      }
    }
  }

  /** One more row of the downward copy. */
  lemma ShiftedStep(g: Grid, i: nat)
    requires GridOk(g) && 0 < i < ROWS
    ensures ShiftedBelow(g, i)[i := StrCpy(g[i], Str(g[i - 1]))] == ShiftedBelow(g, i - 1)
  {
    LenBound(g[i - 1]);
  }

  lemma ShiftedRowsOk(g: Grid, i: nat)
    requires GridOk(g)
    ensures GridOk(ShiftedBelow(g, i))
  {
    forall r | 0 <= r < ROWS
      ensures RowOk(ShiftedBelow(g, i)[r])
    {
      if r > i && r > 0 {
        LenBound(g[r - 1]);
        StrNoNul(g[r - 1]);
        StrCpyFacts(g[r], Str(g[r - 1]));
      }
    }
  }
}
