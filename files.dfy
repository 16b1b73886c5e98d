/** The buffer-level logic of save_file, load_file and new_file, with the
    disk, the directory and the keyboard given as values: the text of a file
    is a `seq<char>`, the directory a list of entries, the keys typed into a
    dialog a list of `Key`s. */
module Files {
  import opened Buffer
  import opened Editing

  datatype Option<T> = None | Some(value: T)

  /** A file as save_file writes it. */
  datatype File = File(name: seq<char>, text: seq<char>)

  // ---- save_file: the text written ----

  /** Row i is written when it is not empty, or when it is empty and lies
      above the cursor ("write empty line if there was a newline here"). */
  predicate Written(g: Grid, cy: nat, i: nat)
    requires i < |g|
  {
    !Empty(g[i]) || i < cy
  }

  /** The indices of the rows below n that save_file writes, in order. */
  function WrittenRows(g: Grid, cy: nat, n: nat): (ks: seq<nat>)
    requires n <= |g|
    ensures |ks| <= n && forall j :: 0 <= j < |ks| ==> ks[j] < n
  {
    if n == 0 then []
    else WrittenRows(g, cy, n - 1) + (if Written(g, cy, n - 1) then [n - 1] else [])
  }

  /** Exactly the rows that are written appear, each once, in order. */
  lemma {:induction false} WrittenRowsExact(g: Grid, cy: nat, n: nat)
    requires n <= |g|
    ensures var ks := WrittenRows(g, cy, n);
      (forall i :: 0 <= i < n ==> (i in ks <==> Written(g, cy, i)))
      && (forall j1, j2 :: 0 <= j1 < j2 < |ks| ==> ks[j1] < ks[j2])
  {
    if n > 0 {
      WrittenRowsExact(g, cy, n - 1);
    }
  }

  /** The rows written below m are the first ones written below n. */
  lemma {:induction false} WrittenRowsPrefix(g: Grid, cy: nat, m: nat, n: nat)
    requires m <= n <= |g|
    ensures WrittenRows(g, cy, m) <= WrittenRows(g, cy, n)
    decreases n - m
  {
    if m < n {
      WrittenRowsPrefix(g, cy, m, n - 1);
    }
  }

  /** The strings of the given rows. */
  function Lines(g: Grid, ks: seq<nat>): (ls: seq<seq<char>>)
    requires forall j :: 0 <= j < |ks| ==> ks[j] < |g|
    ensures |ls| == |ks|
  {
    seq(|ks|, j requires 0 <= j < |ks| => Str(g[ks[j]]))
  }

  /** Lines written one after another, each followed by a newline. */
  function Join(ls: seq<seq<char>>): seq<char>
  {
    if ls == [] then [] else ls[0] + ['\n'] + Join(ls[1..])
  }

  /** The file save_file writes for the buffer g with the cursor on row cy:
      `"%s\n"` for a row that is not empty, `"\n"` for an empty row above the
      cursor, nothing for the other rows. */
  function SaveText(g: Grid, cy: nat): seq<char>
    requires |g| == ROWS
  {
    Join(Lines(g, WrittenRows(g, cy, ROWS)))
  }

  lemma {:induction false} JoinSnoc(ls: seq<seq<char>>, l: seq<char>)
    ensures Join(ls + [l]) == Join(ls) + l + ['\n']
    decreases |ls|
  {
    if ls != [] {
      assert (ls + [l])[1..] == ls[1..] + [l];
      JoinSnoc(ls[1..], l);
    }
  }

  /** The text written for rows 0..n, from that for rows 0..n-1. */
  lemma SaveTextStep(g: Grid, cy: nat, n: nat)
    requires |g| == ROWS && n < ROWS
    ensures Join(Lines(g, WrittenRows(g, cy, n + 1)))
      == Join(Lines(g, WrittenRows(g, cy, n))) + (if Written(g, cy, n) then Str(g[n]) + ['\n'] else [])
  {
    var ks := WrittenRows(g, cy, n);
    if Written(g, cy, n) {
      assert WrittenRows(g, cy, n + 1) == ks + [n];
      assert Lines(g, ks + [n]) == Lines(g, ks) + [Str(g[n])];
      JoinSnoc(Lines(g, ks), Str(g[n]));
    } else {
      assert WrittenRows(g, cy, n + 1) == ks;
    }
  }

  // ---- fgets and the read loop ----

  /** How many characters fgets(buf, n, fp) takes from the unread text: up to
      n - 1 of them, stopping after the first newline. */
  function FgetsCount(text: seq<char>, n: nat): (t: nat)
    ensures t <= |text| && (n >= 1 ==> t <= n - 1)
    ensures text != [] && n >= 2 ==> t >= 1
    ensures forall k :: 0 <= k < t - 1 ==> text[k] != '\n'
    ensures t < |text| && n >= 1 && t < n - 1 ==> t >= 1 && text[t - 1] == '\n'
  {
    if n <= 1 || text == [] then 0
    else if text[0] == '\n' then 1
    else 1 + FgetsCount(text[1..], n - 1)
  }

  /** fgets takes t characters exactly when it could stop there: t is at
      most n - 1 and the length of the text, no newline comes before the last
      of them, and either the limit or the end of the text is reached or the
      last character taken is a newline. */
  lemma {:induction false} FgetsCountIs(text: seq<char>, n: nat, t: nat)
    requires 1 <= n && t <= n - 1 && t <= |text|
    requires forall k :: 0 <= k < t - 1 ==> text[k] != '\n'
    requires t == n - 1 || t == |text| || (t > 0 && text[t - 1] == '\n')
    ensures FgetsCount(text, n) == t
    decreases t
  {
    if t > 0 && text[0] != '\n' {
      FgetsCountIs(text[1..], n - 1, t - 1);
    }
  }

  /** The row after fgets has stored line in it and one trailing newline has
      been removed. fgets never returns a line as long as the row; such a
      line would leave the row alone. */
  function FillRow(row: Row, line: seq<char>): (r: Row)
    ensures RowOk(row) && |line| < COLS ==> RowOk(r)
  {
    if |line| >= |row| then row
    else
      var r := StrCpy(row, line);
      var n := Len(r);
      if n > 0 && r[n - 1] == '\n' then r[n - 1 := NUL] else r
  }

  /** The read loop as the source has it: row i, i+1, ... receive the lines
      fgets(row, 80, fp) returns, until 21 rows are filled or the text ends.
      A line of 80 or more characters, newline included, takes more than
      one row. */
  function ReadRowsAsWritten(g: Grid, text: seq<char>, i: nat): (r: Grid)
    requires |g| == ROWS
    ensures |r| == ROWS
    decreases |text|
  {
    if i >= ROWS || text == [] then g
    else
      var t := FgetsCount(text, COLS);
      ReadRowsAsWritten(g[i := FillRow(g[i], text[..t])], text[t..], i + 1)
  }

  /** Where the next row starts after fgets took t characters: a newline that
      comes right after 79 characters without one ends that row too. */
  function NextLine(text: seq<char>, t: nat): (u: nat)
    requires t <= |text|
    ensures t <= u <= |text|
  {
    if t == COLS - 1 && text[t - 1] != '\n' && t < |text| && text[t] == '\n' then t + 1 else t
  }

  /** The read loop of the editor model: as written, except that a row of 79
      characters and its newline fill one row and not two. */
  function ReadRows(g: Grid, text: seq<char>, i: nat): (r: Grid)
    requires |g| == ROWS
    ensures |r| == ROWS
    decreases |text|
  {
    if i >= ROWS || text == [] then g
    else
      var t := FgetsCount(text, COLS);
      ReadRows(g[i := FillRow(g[i], text[..t])], text[NextLine(text, t)..], i + 1)
  }

  /** Both read loops keep every row 80 bytes long with a NUL at the end. */
  lemma {:induction false} ReadRowsOk(g: Grid, text: seq<char>, i: nat)
    requires GridOk(g)
    ensures GridOk(ReadRows(g, text, i)) && GridOk(ReadRowsAsWritten(g, text, i))
    decreases |text|
  {
    if i < ROWS && text != [] {
      var t := FgetsCount(text, COLS);
      var g' := g[i := FillRow(g[i], text[..t])];
      assert GridOk(g');
      ReadRowsOk(g', text[NextLine(text, t)..], i + 1);
      ReadRowsOk(g', text[t..], i + 1);
    }
  }

  /** A line fgets returns has a newline at most as its last character, and
      the loop removes that one: the row's text has none. */
  lemma FillRowNoNewline(row: Row, line: seq<char>)
    requires RowOk(row) && |line| < COLS
    requires forall k :: 0 <= k < |line| - 1 ==> line[k] != '\n'
    ensures '\n' !in Str(FillRow(row, line))
  {
    var r := StrCpy(row, line);
    var n := Len(r);
    StrCpyPrefix(row, line);
    if n > 0 && r[n - 1] == '\n' {
      LenAfterNul(r, n - 1);
      assert Str(FillRow(row, line)) == line[..n - 1];
      NewlineFreeUpTo(line, n - 1);
    } else {
      assert FillRow(row, line) == r;
      assert n > 0 ==> line[n - 1] == r[n - 1];
      NewlineFreeUpTo(line, n);
    }
  }

  /** strcpy of a line that may hold a NUL: the text is the line up to it. */
  lemma StrCpyPrefix(row: Row, line: seq<char>)
    requires |line| < |row|
    ensures Len(StrCpy(row, line)) <= |line|
    ensures Str(StrCpy(row, line)) == line[..Len(StrCpy(row, line))]
    ensures forall k :: 0 <= k < Len(StrCpy(row, line)) ==> StrCpy(row, line)[k] == line[k]
  {
    var r := StrCpy(row, line);
    assert r[|line|] == NUL;
    assert forall k :: 0 <= k < Len(r) ==> r[k] == line[k];
  }

  lemma NewlineFreeUpTo(line: seq<char>, m: nat)
    requires m <= |line| && forall k :: 0 <= k < m ==> line[k] != '\n'
    ensures '\n' !in line[..m]
  {
    assert forall k :: 0 <= k < m ==> line[..m][k] == line[k];
  }

  /** Reading a file never leaves a newline in the text of a row. */
  lemma {:induction false} ReadAsWrittenNoNewlines(g: Grid, text: seq<char>, i: nat)
    requires GridOk(g) && NoNewlines(g)
    ensures NoNewlines(ReadRowsAsWritten(g, text, i))
    decreases |text|
  {
    if i < ROWS && text != [] {
      var t := FgetsCount(text, COLS);
      var line := text[..t];
      assert forall k :: 0 <= k < |line| - 1 ==> line[k] == text[k];
      FillRowNoNewline(g[i], line);
      var g' := g[i := FillRow(g[i], line)];
      assert GridOk(g');
      ReadAsWrittenNoNewlines(g', text[t..], i + 1);
    }
  }

  /** Lines a row can hold and a file can bring back: no NUL, no newline,
      at most max characters. */
  ghost predicate PlainLines(ls: seq<seq<char>>, max: nat)
  {
    forall j :: 0 <= j < |ls| ==> |ls[j]| <= max && NoNul(ls[j]) && '\n' !in ls[j]
  }

  lemma FgetsCountLine(l: seq<char>, rest: seq<char>)
    requires |l| < COLS && '\n' !in l
    ensures FgetsCount(l + ['\n'] + rest, COLS) == if |l| < COLS - 1 then |l| + 1 else |l|
  {
    FgetsCountLineN(l, rest, COLS);
  }

  lemma {:induction false} FgetsCountLineN(l: seq<char>, rest: seq<char>, n: nat)
    requires |l| < n && '\n' !in l
    ensures FgetsCount(l + ['\n'] + rest, n) == if |l| < n - 1 then |l| + 1 else |l|
    decreases |l|
  {
    if l != [] {
      assert (l + ['\n'] + rest)[1..] == l[1..] + ['\n'] + rest;
      FgetsCountLineN(l[1..], rest, n - 1);
    }
  }

  lemma FillRowLine(row: Row, l: seq<char>, withNewline: bool)
    requires RowOk(row) && NoNul(l) && '\n' !in l
    requires if withNewline then |l| < COLS - 1 else |l| < COLS
    ensures Str(FillRow(row, if withNewline then l + ['\n'] else l)) == l
  {
    var line := if withNewline then l + ['\n'] else l;
    StrCpyFacts(row, line);
    var r := StrCpy(row, line);
    if withNewline {
      LenAfterNul(r, |l|);
      assert Str(r)[..|l|] == l;
    } else if |l| > 0 {
      assert r[|l| - 1] == l[|l| - 1];
    }
  }

  /** The line fgets stores for a row of text l followed by its newline:
      the newline too when it fits, l alone when l has 79 characters. */
  function LineRead(l: seq<char>): seq<char>
  {
    if |l| < COLS - 1 then l + ['\n'] else l
  }

  /** What fgets takes from a line l and its newline, and where the next
      row starts: the newline is taken with l when it fits, and otherwise
      left for the next call (the corrected loop skips it). */
  lemma FgetsLine(l: seq<char>, rest: seq<char>)
    requires |l| < COLS && '\n' !in l
    ensures var text := l + ['\n'] + rest; var t := FgetsCount(text, COLS);
      text[..t] == LineRead(l)
      && text[t..] == (if |l| < COLS - 1 then rest else ['\n'] + rest)
      && NextLine(text, t) == |l| + 1 && text[|l| + 1..] == rest
  {
    var text := l + ['\n'] + rest;
    FgetsCountLine(l, rest);
    var t := FgetsCount(text, COLS);
    assert text[..t] == LineRead(l);
    if |l| == COLS - 1 {
      assert text[t - 1] == l[|l| - 1];
    }
  }

  /** One line read back by the corrected loop. */
  lemma ReadOneLine(g: Grid, l: seq<char>, rest: seq<char>, i: nat)
    requires |g| == ROWS && i < ROWS && |l| < COLS && '\n' !in l
    ensures ReadRows(g, l + ['\n'] + rest, i) == ReadRows(g[i := FillRow(g[i], LineRead(l))], rest, i + 1)
  {
    FgetsLine(l, rest);
  }

  /** One line read back by the loop as written: a line of 79 characters
      leaves its newline for the next fgets. */
  lemma ReadOneLineAsWritten(g: Grid, l: seq<char>, rest: seq<char>, i: nat)
    requires |g| == ROWS && i < ROWS && |l| < COLS && '\n' !in l
    ensures ReadRowsAsWritten(g, l + ['\n'] + rest, i)
      == ReadRowsAsWritten(g[i := FillRow(g[i], LineRead(l))], if |l| < COLS - 1 then rest else ['\n'] + rest, i + 1)
  {
    FgetsLine(l, rest);
  }

  /** Reading back lines that all fit: row i + j receives line j, the rows
      above i keep their bytes, and so do the rows below the last line read. */
  lemma ReadRowsLines(g: Grid, ls: seq<seq<char>>, i: nat)
    requires GridOk(g) && PlainLines(ls, COLS - 1)
    ensures var r := ReadRows(g, Join(ls), i);
      (forall j :: 0 <= j < |ls| && i + j < ROWS ==> Str(r[i + j]) == ls[j])
      && (forall y :: 0 <= y < ROWS && (y < i || y >= i + |ls|) ==> r[y] == g[y])
  {
    ReadRowsJoin(g, ls, i);
    forall j | 0 <= j < |ls| && i + j < ROWS
      ensures Str(ReadLines(g, ls, i)[i + j]) == ls[j]
    {
      ReadRowsFills(g, ls, i, j);
      FillRowIsLineRow(g[i + j], ls[j]);
    }
    forall y | 0 <= y < ROWS && (y < i || y >= i + |ls|)
      ensures ReadLines(g, ls, i)[y] == g[y]
    {
      ReadRowsKeeps(g, ls, i, y);
    }
  }

  /** The row fgets and the newline strip leave for a line l that fits:
      l, its newline overwritten by NUL when it was read, then a NUL. Any
      other row or line is left alone. */
  function LineRow(row: Row, l: seq<char>): (r: Row)
    ensures RowOk(row) ==> RowOk(r)
  {
    if |row| != COLS || |l| >= COLS then row
    else if |l| < COLS - 1 then StrCpy(row, l + ['\n'])[|l| := NUL]
    else StrCpy(row, l)
  }

  lemma FillRowIsLineRow(row: Row, l: seq<char>)
    requires RowOk(row) && |l| < COLS && NoNul(l) && '\n' !in l
    ensures FillRow(row, LineRead(l)) == LineRow(row, l)
    ensures Str(LineRow(row, l)) == l
  {
    StrCpyFacts(row, LineRead(l));
    if |l| == COLS - 1 {
      assert LineRead(l)[|l| - 1] == l[|l| - 1];
    }
    FillRowLine(row, l, |l| < COLS - 1);
  }

  /** The corrected read loop over a file made of lines that fit: row i + j
      receives line j. */
  function ReadLines(g: Grid, ls: seq<seq<char>>, i: nat): (r: Grid)
    ensures |r| == |g|
    decreases |ls|
  {
    if i >= |g| || ls == [] then g
    else ReadLines(g[i := LineRow(g[i], ls[0])], ls[1..], i + 1)
  }

  lemma {:induction false} ReadRowsJoin(g: Grid, ls: seq<seq<char>>, i: nat)
    requires GridOk(g) && PlainLines(ls, COLS - 1)
    ensures ReadRows(g, Join(ls), i) == ReadLines(g, ls, i)
    decreases |ls|
  {
    if i < ROWS && ls != [] {
      ReadRowsStep(g, ls, i);
      FillRowIsLineRow(g[i], ls[0]);
      assert PlainLines(ls[1..], COLS - 1);
      ReadRowsJoin(g[i := LineRow(g[i], ls[0])], ls[1..], i + 1);
    } else if ls == [] {
      assert Join(ls) == [];
    }
  }

  lemma {:induction false} ReadRowsFills(g: Grid, ls: seq<seq<char>>, i: nat, j: nat)
    requires j < |ls| && i + j < |g|
    ensures ReadLines(g, ls, i)[i + j] == LineRow(g[i + j], ls[j])
    decreases j
  {
    var more := ls[1..];
    var g' := g[i := LineRow(g[i], ls[0])];
    assert ReadLines(g, ls, i) == ReadLines(g', more, i + 1);
    if j == 0 {
      ReadRowsKeeps(g', more, i + 1, i);
    } else {
      ReadRowsFills(g', more, i + 1, j - 1);
      assert ls[j] == more[j - 1];
    }
  }

  lemma {:induction false} ReadRowsKeeps(g: Grid, ls: seq<seq<char>>, i: nat, y: nat)
    requires y < |g| && (y < i || y >= i + |ls|)
    ensures ReadLines(g, ls, i)[y] == g[y]
    decreases |ls|
  {
    if i < |g| && ls != [] {
      ReadRowsKeeps(g[i := LineRow(g[i], ls[0])], ls[1..], i + 1, y);
    }
  }

  /** The first line of a list read back by the corrected loop. */
  lemma ReadRowsStep(g: Grid, ls: seq<seq<char>>, i: nat)
    requires GridOk(g) && PlainLines(ls, COLS - 1) && ls != [] && i < ROWS
    ensures ReadRows(g, Join(ls), i) == ReadRows(g[i := FillRow(g[i], LineRead(ls[0]))], Join(ls[1..]), i + 1)
  {
    assert Join(ls) == ls[0] + ['\n'] + Join(ls[1..]);
    ReadOneLine(g, ls[0], Join(ls[1..]), i);
  }

  lemma {:induction false} ReadAsWrittenKeepsAbove(g: Grid, text: seq<char>, i: nat, y: nat)
    requires |g| == ROWS && y < i && y < ROWS
    ensures ReadRowsAsWritten(g, text, i)[y] == g[y]
    decreases |text|
  {
    if i < ROWS && text != [] {
      var t := FgetsCount(text, COLS);
      ReadAsWrittenKeepsAbove(g[i := FillRow(g[i], text[..t])], text[t..], i + 1, y);
    }
  }

  /** How many turns the read loop makes from row i: one fgets call per
      row, until the last row is filled or the text ends. Each turn takes at
      least one character. */
  function Turns(text: seq<char>, i: nat): (n: nat)
    ensures n <= |text|
    ensures i < ROWS ==> i + n <= ROWS
    ensures n == 0 <==> (i >= ROWS || text == [])
    decreases |text|
  {
    if i >= ROWS || text == [] then 0
    else 1 + Turns(text[FgetsCount(text, COLS)..], i + 1)
  }

  /** The read loop never changes a row past the last one it fills. */
  lemma {:induction false} ReadAsWrittenKeepsBelow(g: Grid, text: seq<char>, i: nat, y: nat)
    requires |g| == ROWS && i + Turns(text, i) <= y < ROWS
    ensures ReadRowsAsWritten(g, text, i)[y] == g[y]
    decreases |text|
  {
    if i < ROWS && text != [] {
      var t := FgetsCount(text, COLS);
      ReadAsWrittenKeepsBelow(g[i := FillRow(g[i], text[..t])], text[t..], i + 1, y);
    }
  }

  /** A text without a newline is cut into pieces of 79 characters, one row
      each, as far as the rows reach: "abc" takes one row and a line of 100
      characters two. */
  lemma {:induction false} NoNewlineTurns(text: seq<char>, i: nat)
    requires '\n' !in text && i <= ROWS
    ensures Turns(text, i) == Min(ROWS - i, (|text| + COLS - 2) / (COLS - 1))
    decreases |text|
  {
    if i < ROWS && text != [] {
      var m := Min(|text|, COLS - 1);
      FgetsCountIs(text, COLS, m);
      assert '\n' !in text[m..] by {
        forall k | m <= k < |text| ensures text[k] != '\n' { assert text[k] in text; }
      }
      NoNewlineTurns(text[m..], i + 1);
      if |text| > COLS - 1 {
        assert (|text| - m + COLS - 2) / (COLS - 1) == (|text| + COLS - 2) / (COLS - 1) - 1;
      }
    }
  }

  /** As written, a line of exactly 79 characters fills one row and its
      newline, read on its own by the next fgets, fills the next row. */
  lemma FullLineAsWritten(g: Grid, l0: seq<char>, rest: seq<char>, i: nat)
    requires |g| == ROWS && i + 1 < ROWS && |l0| == COLS - 1 && '\n' !in l0
    ensures ReadRowsAsWritten(g, l0 + ['\n'] + rest, i)
      == ReadRowsAsWritten(g[i := FillRow(g[i], l0)][i + 1 := FillRow(g[i + 1], ['\n'])], rest, i + 2)
  {
    ReadOneLineAsWritten(g, l0, rest, i);
    assert LineRead(l0) == l0;
    var g1 := g[i := FillRow(g[i], l0)];
    ReadNewlineAsWritten(g1, rest, i + 1);
  }

  /** As written, a newline left over by the previous fgets is read alone. */
  lemma ReadNewlineAsWritten(g: Grid, rest: seq<char>, i: nat)
    requires |g| == ROWS && i < ROWS
    ensures ReadRowsAsWritten(g, ['\n'] + rest, i) == ReadRowsAsWritten(g[i := FillRow(g[i], ['\n'])], rest, i + 1)
  {
    assert ['\n'] + rest == [] + ['\n'] + rest;
    ReadOneLineAsWritten(g, [], rest, i);
    assert LineRead([]) == ['\n'];
  }

  /** As written, the line read into row i + 2 leaves rows i and i + 1 as
      they were. */
  lemma ReadAsWrittenLineAfterTwo(g: Grid, l: seq<char>, rest: seq<char>, i: nat)
    requires |g| == ROWS && i + 2 < ROWS && |l| < COLS && '\n' !in l
    ensures var r := ReadRowsAsWritten(g, l + ['\n'] + rest, i + 2);
      r[i] == g[i] && r[i + 1] == g[i + 1] && r[i + 2] == FillRow(g[i + 2], LineRead(l))
  {
    var g3 := g[i + 2 := FillRow(g[i + 2], LineRead(l))];
    var tail := if |l| < COLS - 1 then rest else ['\n'] + rest;
    ReadAsWrittenKeepsAbove(g3, tail, i + 3, i);
    ReadAsWrittenKeepsAbove(g3, tail, i + 3, i + 1);
    ReadAsWrittenKeepsAbove(g3, tail, i + 3, i + 2);
    ReadOneLineAsWritten(g, l, rest, i + 2);
  }

  /** The three rows a 79-character line and the line after it fill, as
      written. */
  lemma ReadAsWrittenFullLineRows(g: Grid, l0: seq<char>, l1: seq<char>, rest: seq<char>, i: nat)
    requires |g| == ROWS && i + 2 < ROWS
    requires |l0| == COLS - 1 && '\n' !in l0
    requires |l1| < COLS && '\n' !in l1
    ensures var r := ReadRowsAsWritten(g, l0 + ['\n'] + (l1 + ['\n'] + rest), i);
      r[i] == FillRow(g[i], l0) && r[i + 1] == FillRow(g[i + 1], ['\n'])
      && r[i + 2] == FillRow(g[i + 2], LineRead(l1))
  {
    var g2 := g[i := FillRow(g[i], l0)][i + 1 := FillRow(g[i + 1], ['\n'])];
    ReadAsWrittenLineAfterTwo(g2, l1, rest, i);
    FullLineAsWritten(g, l0, l1 + ['\n'] + rest, i);
  }

  /** As written, a line of exactly 79 characters comes back as that line
      followed by an empty row, and the next line lands one row further down. */
  lemma ReadAsWrittenSplitsFullLine(g: Grid, l0: seq<char>, l1: seq<char>, rest: seq<char>, i: nat)
    requires GridOk(g) && i + 2 < ROWS
    requires |l0| == COLS - 1 && NoNul(l0) && '\n' !in l0
    requires |l1| < COLS && NoNul(l1) && '\n' !in l1
    ensures var r := ReadRowsAsWritten(g, l0 + ['\n'] + (l1 + ['\n'] + rest), i);
      Str(r[i]) == l0 && Str(r[i + 1]) == [] && Str(r[i + 2]) == l1
  {
    ReadAsWrittenFullLineRows(g, l0, l1, rest, i);
    FillRowLine(g[i], l0, false);
    assert ['\n'] == [] + ['\n'];
    FillRowLine(g[i + 1], [], true);
    assert LineRead(l1) == if |l1| < COLS - 1 then l1 + ['\n'] else l1;
    FillRowLine(g[i + 2], l1, |l1| < COLS - 1);
  }

  /** The rows the loop as written fills from a file made of the lines ls:
      each line gives one row, and a line of exactly 79 characters is
      followed by an empty row, made of the newline fgets left behind. */
  function SplitLines(ls: seq<seq<char>>): (ms: seq<seq<char>>)
    ensures |ms| >= |ls|
  {
    if ls == [] then []
    else (if |ls[0]| == COLS - 1 then [ls[0], []] else [ls[0]]) + SplitLines(ls[1..])
  }

  /** Lines shorter than 79 characters are read one row each. */
  lemma {:induction false} SplitShortLines(ls: seq<seq<char>>)
    requires forall j :: 0 <= j < |ls| ==> |ls[j]| < COLS - 1
    ensures SplitLines(ls) == ls
  {
    if ls != [] {
      SplitShortLines(ls[1..]);
      assert [ls[0]] + ls[1..] == ls;
    }
  }

  /** The rows a file fills come from a line or are empty, so they can be
      read back again. */
  lemma {:induction false} SplitLinesPlain(ls: seq<seq<char>>)
    requires PlainLines(ls, COLS - 1)
    ensures PlainLines(SplitLines(ls), COLS - 1)
  {
    if ls != [] {
      assert PlainLines(ls[1..], COLS - 1);
      SplitLinesPlain(ls[1..]);
    }
  }

  /** The first rows of SplitLines. */
  lemma SplitLinesFirst(ls: seq<seq<char>>)
    requires ls != []
    ensures SplitLines(ls)[0] == ls[0]
    ensures |ls[0]| == COLS - 1 ==> SplitLines(ls)[1] == [] && SplitLines(ls)[2..] == SplitLines(ls[1..])
    ensures |ls[0]| != COLS - 1 ==> SplitLines(ls)[1..] == SplitLines(ls[1..])
  {
  }

  /** The loop as written over a file made of lines that fit: the same as
      the corrected loop over the rows SplitLines gives. */
  lemma {:induction false} ReadAsWrittenJoin(g: Grid, ls: seq<seq<char>>, i: nat)
    requires GridOk(g) && PlainLines(ls, COLS - 1)
    ensures ReadRowsAsWritten(g, Join(ls), i) == ReadLines(g, SplitLines(ls), i)
    decreases |ls|
  {
    if ls == [] {
      assert Join(ls) == [];
    } else if i < ROWS {
      var rest := ls[1..];
      assert PlainLines(rest, COLS - 1);
      var g1 := g[i := LineRow(g[i], ls[0])];
      if |ls[0]| < COLS - 1 {
        ReadAsWrittenJoin(g1, rest, i + 1);
        ShortLineStep(g, ls, i);
      } else if i + 1 < ROWS {
        var g2 := g1[i + 1 := LineRow(g1[i + 1], [])];
        ReadAsWrittenJoin(g2, rest, i + 2);
        FullLineStep(g, ls, i);
      } else {
        LastFullLineStep(g, ls, i);
      }
    }
  }

  /** The first line of a file read by the loop as written, and by
      ReadLines over SplitLines. */
  lemma FirstLineStep(g: Grid, ls: seq<seq<char>>, i: nat)
    requires GridOk(g) && PlainLines(ls, COLS - 1) && ls != [] && i < ROWS
    ensures var l := ls[0]; var g1 := g[i := LineRow(g[i], l)];
      ReadRowsAsWritten(g, Join(ls), i)
        == ReadRowsAsWritten(g1, if |l| < COLS - 1 then Join(ls[1..]) else ['\n'] + Join(ls[1..]), i + 1)
      && ReadLines(g, SplitLines(ls), i) == ReadLines(g1, SplitLines(ls)[1..], i + 1)
  {
    var l := ls[0];
    SplitLinesFirst(ls);
    assert Join(ls) == l + ['\n'] + Join(ls[1..]);
    ReadOneLineAsWritten(g, l, Join(ls[1..]), i);
    FillRowIsLineRow(g[i], l);
  }

  lemma ShortLineStep(g: Grid, ls: seq<seq<char>>, i: nat)
    requires GridOk(g) && PlainLines(ls, COLS - 1) && ls != [] && i < ROWS && |ls[0]| < COLS - 1
    requires var g1 := g[i := LineRow(g[i], ls[0])];
      ReadRowsAsWritten(g1, Join(ls[1..]), i + 1) == ReadLines(g1, SplitLines(ls[1..]), i + 1)
    ensures ReadRowsAsWritten(g, Join(ls), i) == ReadLines(g, SplitLines(ls), i)
  {
    FirstLineStep(g, ls, i);
    SplitLinesFirst(ls);
  }

  lemma FullLineStep(g: Grid, ls: seq<seq<char>>, i: nat)
    requires GridOk(g) && PlainLines(ls, COLS - 1) && ls != [] && i + 1 < ROWS && |ls[0]| == COLS - 1
    requires var g1 := g[i := LineRow(g[i], ls[0])]; var g2 := g1[i + 1 := LineRow(g1[i + 1], [])];
      ReadRowsAsWritten(g2, Join(ls[1..]), i + 2) == ReadLines(g2, SplitLines(ls[1..]), i + 2)
    ensures ReadRowsAsWritten(g, Join(ls), i) == ReadLines(g, SplitLines(ls), i)
  {
    var g1 := g[i := LineRow(g[i], ls[0])];
    var ms := SplitLines(ls);
    FirstLineStep(g, ls, i);
    SplitLinesFirst(ls);
    ReadNewlineAsWritten(g1, Join(ls[1..]), i + 1);
    FillRowIsLineRow(g1[i + 1], []);
    assert LineRead([]) == ['\n'];
    assert ms[1..][0] == [] && ms[1..][1..] == ms[2..];
  }

  lemma LastFullLineStep(g: Grid, ls: seq<seq<char>>, i: nat)
    requires GridOk(g) && PlainLines(ls, COLS - 1) && ls != [] && i == ROWS - 1 && |ls[0]| == COLS - 1
    ensures ReadRowsAsWritten(g, Join(ls), i) == ReadLines(g, SplitLines(ls), i)
  {
    FirstLineStep(g, ls, i);
  }

  /** Reading back lines that fit with the loop as written: row i + j
      receives row j of SplitLines, the rows above i keep their bytes, and so
      do the rows below the last row filled. */
  lemma ReadAsWrittenLines(g: Grid, ls: seq<seq<char>>, i: nat)
    requires GridOk(g) && PlainLines(ls, COLS - 1)
    ensures var r := ReadRowsAsWritten(g, Join(ls), i); var ms := SplitLines(ls);
      (forall j :: 0 <= j < |ms| && i + j < ROWS ==> Str(r[i + j]) == ms[j])
      && (forall y :: 0 <= y < ROWS && (y < i || y >= i + |ms|) ==> r[y] == g[y])
  {
    var ms := SplitLines(ls);
    ReadAsWrittenJoin(g, ls, i);
    SplitLinesPlain(ls);
    forall j | 0 <= j < |ms| && i + j < ROWS
      ensures Str(ReadLines(g, ms, i)[i + j]) == ms[j]
    {
      ReadRowsFills(g, ms, i, j);
      FillRowIsLineRow(g[i + j], ms[j]);
    }
    forall y | 0 <= y < ROWS && (y < i || y >= i + |ms|)
      ensures ReadLines(g, ms, i)[y] == g[y]
    {
      ReadRowsKeeps(g, ms, i, y);
    }
  }

  /** Reading any file into a buffer that is not cleared first (load_file):
      the loop fills Turns(text, 0) rows, at most one per character and
      none past the last, and every row after those keeps whatever it held. */
  lemma LoadKeepsRowsBelow(g: Grid, text: seq<char>)
    requires GridOk(g)
    ensures var r := ReadRowsAsWritten(g, text, 0);
      GridOk(r) && Turns(text, 0) <= Min(ROWS, |text|)
      && forall y :: Turns(text, 0) <= y < ROWS ==> r[y] == g[y]
  {
    ReadRowsOk(g, text, 0);
    forall y | Turns(text, 0) <= y < ROWS
      ensures ReadRowsAsWritten(g, text, 0)[y] == g[y]
    {
      ReadAsWrittenKeepsBelow(g, text, 0, y);
    }
  }

  /** The same read for a file made of lines: the rows from 0 on receive the
      rows SplitLines gives, and the rows below those keep what they held. */
  lemma LoadReadsLines(g: Grid, ls: seq<seq<char>>)
    requires GridOk(g) && PlainLines(ls, COLS - 1)
    ensures var r := ReadRowsAsWritten(g, Join(ls), 0); var ms := SplitLines(ls);
      (forall y :: 0 <= y < ROWS && y < |ms| ==> Str(r[y]) == ms[y])
      && (forall y :: |ms| <= y < ROWS ==> r[y] == g[y])
  {
    ReadAsWrittenLines(g, ls, 0);
  }

  // ---- save then reload ----

  lemma WrittenLinesPlain(g: Grid, cy: nat)
    requires GridOk(g)
    requires NoNewlines(g)
    ensures PlainLines(Lines(g, WrittenRows(g, cy, ROWS)), COLS - 1)
  {
    var ks := WrittenRows(g, cy, ROWS);
    forall j | 0 <= j < |ks|
      ensures |Str(g[ks[j]])| <= COLS - 1 && NoNul(Str(g[ks[j]]))
    {
      LenBound(g[ks[j]]);
      StrNoNul(g[ks[j]]);
    }
  }

  /** Save followed by the reload of save_file: row j of the reloaded buffer
      holds the text of the j-th row written, and every row after the last
      one written is empty. */
  lemma SaveReloadRoundTrip(g: Grid, cy: nat)
    requires GridOk(g)
    requires NoNewlines(g)
    ensures var ks := WrittenRows(g, cy, ROWS); var r := ReadRows(ZeroGrid(), SaveText(g, cy), 0);
      (forall j :: 0 <= j < |ks| ==> Str(r[j]) == Str(g[ks[j]]))
      && (forall y :: |ks| <= y < ROWS ==> Str(r[y]) == [])
  {
    var ks := WrittenRows(g, cy, ROWS);
    var ls := Lines(g, ks);
    WrittenLinesPlain(g, cy);
    ReadRowsLines(ZeroGrid(), ls, 0);
    assert SaveText(g, cy) == Join(ls);
    var r := ReadRows(ZeroGrid(), Join(ls), 0);
    forall j | 0 <= j < |ks|
      ensures Str(r[j]) == Str(g[ks[j]])
    {
      assert Str(r[0 + j]) == ls[j];
    }
    forall y | |ks| <= y < ROWS
      ensures Str(r[y]) == []
    {
      assert r[y] == ZeroGrid()[y] == ZeroRow();
    }
  }

  /** Save followed by the reload of save_file as written: row j of the
      reloaded buffer holds row j of SplitLines of the rows written (a row of
      79 characters is followed by an empty one), and every row after those
      is empty. */
  lemma SaveReloadAsWritten(g: Grid, cy: nat)
    requires GridOk(g)
    requires NoNewlines(g)
    ensures var ms := SplitLines(Lines(g, WrittenRows(g, cy, ROWS)));
      var r := ReadRowsAsWritten(ZeroGrid(), SaveText(g, cy), 0);
      (forall j :: 0 <= j < |ms| && j < ROWS ==> Str(r[j]) == ms[j])
      && (forall y :: |ms| <= y < ROWS ==> Str(r[y]) == [])
  {
    var ls := Lines(g, WrittenRows(g, cy, ROWS));
    WrittenLinesPlain(g, cy);
    ReadAsWrittenIntoCleared(ls);
    assert SaveText(g, cy) == Join(ls);
  }

  /** A file read as written into the cleared buffer. */
  lemma ReadAsWrittenIntoCleared(ls: seq<seq<char>>)
    requires PlainLines(ls, COLS - 1)
    ensures var ms := SplitLines(ls); var r := ReadRowsAsWritten(ZeroGrid(), Join(ls), 0);
      (forall j :: 0 <= j < |ms| && j < ROWS ==> Str(r[j]) == ms[j])
      && (forall y :: |ms| <= y < ROWS ==> Str(r[y]) == [])
  {
    ReadAsWrittenFilled(ls);
    ReadAsWrittenClearedBelow(ls);
  }

  lemma ReadAsWrittenFilled(ls: seq<seq<char>>)
    requires PlainLines(ls, COLS - 1)
    ensures var ms := SplitLines(ls); var r := ReadRowsAsWritten(ZeroGrid(), Join(ls), 0);
      forall j :: 0 <= j < |ms| && j < ROWS ==> Str(r[j]) == ms[j]
  {
    var ms := SplitLines(ls);
    forall j | 0 <= j < |ms| && j < ROWS
      ensures Str(ReadRowsAsWritten(ZeroGrid(), Join(ls), 0)[j]) == ms[j]
    {
      FilledRow(ls, j);
    }
  }

  /** Row j of a file read as written into the cleared buffer. */
  lemma FilledRow(ls: seq<seq<char>>, j: nat)
    requires PlainLines(ls, COLS - 1) && j < |SplitLines(ls)| && j < ROWS
    ensures Str(ReadRowsAsWritten(ZeroGrid(), Join(ls), 0)[j]) == SplitLines(ls)[j]
  {
    var ms := SplitLines(ls);
    ReadAsWrittenJoin(ZeroGrid(), ls, 0);
    SplitLinesPlain(ls);
    ReadRowsFills(ZeroGrid(), ms, 0, j);
    FillRowIsLineRow(ZeroGrid()[j], ms[j]);
  }

  lemma ReadAsWrittenClearedBelow(ls: seq<seq<char>>)
    requires PlainLines(ls, COLS - 1)
    ensures var ms := SplitLines(ls); var r := ReadRowsAsWritten(ZeroGrid(), Join(ls), 0);
      forall y :: |ms| <= y < ROWS ==> Str(r[y]) == []
  {
    var ms := SplitLines(ls);
    ReadAsWrittenJoin(ZeroGrid(), ls, 0);
    forall y | |ms| <= y < ROWS
      ensures Str(ReadLines(ZeroGrid(), ms, 0)[y]) == []
    {
      ReadRowsKeeps(ZeroGrid(), ms, 0, y);
      assert ZeroGrid()[y] == ZeroRow();
    }
  }

  /** When no line has 79 characters the loop as written and the corrected
      loop read the same rows. */
  lemma ReadLoopsAgree(g: Grid, ls: seq<seq<char>>, i: nat)
    requires GridOk(g) && PlainLines(ls, COLS - 1)
    requires forall j :: 0 <= j < |ls| ==> |ls[j]| < COLS - 1
    ensures ReadRowsAsWritten(g, Join(ls), i) == ReadRows(g, Join(ls), i)
  {
    ReadAsWrittenJoin(g, ls, i);
    ReadRowsJoin(g, ls, i);
    SplitShortLines(ls);
  }

  /** Rows shorter than 79 characters are saved as lines shorter than 79. */
  lemma WrittenLinesShort(g: Grid, cy: nat)
    requires GridOk(g)
    requires forall y :: 0 <= y < ROWS ==> Len(g[y]) != COLS - 1
    ensures var ls := Lines(g, WrittenRows(g, cy, ROWS));
      forall j :: 0 <= j < |ls| ==> |ls[j]| < COLS - 1
  {
    var ks := WrittenRows(g, cy, ROWS);
    forall j | 0 <= j < |ks|
      ensures |Str(g[ks[j]])| < COLS - 1
    {
      LenBound(g[ks[j]]);
    }
  }

  /** As written, save and reload give back the text of every row when no
      row holds exactly 79 characters and no empty row at or below the
      cursor lies above a non-empty one. */
  lemma SaveReloadAsWrittenRestoresRows(g: Grid, cy: nat)
    requires GridOk(g)
    requires NoNewlines(g) && forall y :: 0 <= y < ROWS ==> Len(g[y]) != COLS - 1
    requires forall i, j :: cy <= i < j < ROWS && Empty(g[i]) ==> Empty(g[j])
    ensures var r := ReadRowsAsWritten(ZeroGrid(), SaveText(g, cy), 0);
      forall y :: 0 <= y < ROWS ==> Str(r[y]) == Str(g[y])
  {
    var ls := Lines(g, WrittenRows(g, cy, ROWS));
    WrittenLinesPlain(g, cy);
    WrittenLinesShort(g, cy);
    ReadLoopsAgree(ZeroGrid(), ls, 0);
    assert SaveText(g, cy) == Join(ls);
    SaveReloadRestoresRows(g, cy);
  }

  /** The rows written form a prefix 0..m-1 when no empty row at or below
      the cursor has a non-empty row after it. */
  lemma {:induction false} WrittenPrefix(g: Grid, cy: nat, n: nat)
    requires |g| == ROWS && n <= ROWS
    requires forall i, j :: cy <= i < j < ROWS && Empty(g[i]) ==> Empty(g[j])
    ensures var ks := WrittenRows(g, cy, n);
      (forall j :: 0 <= j < |ks| ==> ks[j] == j)
      && (forall i :: |ks| <= i < n ==> !Written(g, cy, i))
  {
    if n > 0 {
      WrittenPrefix(g, cy, n - 1);
      var ks := WrittenRows(g, cy, n - 1);
      if Written(g, cy, n - 1) {
        assert WrittenRows(g, cy, n) == ks + [n - 1];
      } else {
        assert WrittenRows(g, cy, n) == ks;
      }
    }
  }

  /** Save followed by reload gives back the text of every row, as long as
      no empty row at or below the cursor lies above a non-empty one (such a
      row is not written, and the rows after it move up on reload). */
  lemma SaveReloadRestoresRows(g: Grid, cy: nat)
    requires GridOk(g)
    requires NoNewlines(g)
    requires forall i, j :: cy <= i < j < ROWS && Empty(g[i]) ==> Empty(g[j])
    ensures var r := ReadRows(ZeroGrid(), SaveText(g, cy), 0);
      forall y :: 0 <= y < ROWS ==> Str(r[y]) == Str(g[y])
  {
    SaveReloadRoundTrip(g, cy);
    WrittenPrefix(g, cy, ROWS);
    var ks := WrittenRows(g, cy, ROWS);
    forall y | 0 <= y < ROWS
      ensures Str(ReadRows(ZeroGrid(), SaveText(g, cy), 0)[y]) == Str(g[y])
    {
      if y >= |ks| {
        assert !Written(g, cy, y);
      } else {
        assert ks[y] == y;
      }
    }
  }

  /** As written, saving a document whose first row holds 79 characters and
      reloading it keeps row 0, puts an empty row in row 1 and moves row 1 to
      row 2
      (SaveReloadRoundTrip shows that the corrected loop keeps row 1). */
  lemma SaveReloadAsWrittenInsertsRow(g: Grid, cy: nat)
    requires GridOk(g)
    requires NoNewlines(g)
    requires Len(g[0]) == COLS - 1 && !Empty(g[1])
    ensures var r := ReadRowsAsWritten(ZeroGrid(), SaveText(g, cy), 0);
      Str(r[0]) == Str(g[0]) && Str(r[1]) == [] && Str(r[2]) == Str(g[1])
  {
    var ks := WrittenRows(g, cy, ROWS);
    WrittenLinesPlain(g, cy);
    FirstTwoWritten(g, cy);
    var ls := Lines(g, ks);
    assert ls[0] == Str(g[0]) && ls[1] == Str(g[1]);
    StrNoNul(g[0]);
    ReadAsWrittenTwoLines(ls);
  }

  /** A file whose first line has 79 characters, read as written into a
      cleared buffer. */
  lemma ReadAsWrittenTwoLines(ls: seq<seq<char>>)
    requires |ls| >= 2 && |ls[0]| == COLS - 1 && NoNul(ls[0]) && '\n' !in ls[0]
    requires |ls[1]| < COLS && NoNul(ls[1]) && '\n' !in ls[1]
    ensures var r := ReadRowsAsWritten(ZeroGrid(), Join(ls), 0);
      Str(r[0]) == ls[0] && Str(r[1]) == [] && Str(r[2]) == ls[1]
  {
    JoinTwo(ls);
    ReadAsWrittenSplitsFullLine(ZeroGrid(), ls[0], ls[1], Join(ls[2..]), 0);
  }

  /** When rows 0 and 1 are not empty they are the first two written. */
  lemma FirstTwoWritten(g: Grid, cy: nat)
    requires |g| == ROWS && !Empty(g[0]) && !Empty(g[1])
    ensures var ks := WrittenRows(g, cy, ROWS); |ks| >= 2 && ks[0] == 0 && ks[1] == 1
  {
    assert WrittenRows(g, cy, 1) == [0];
    assert WrittenRows(g, cy, 2) == [0, 1];
    WrittenRowsPrefix(g, cy, 2, ROWS);
  }

  lemma JoinTwo(ls: seq<seq<char>>)
    requires |ls| >= 2
    ensures Join(ls) == ls[0] + ['\n'] + (ls[1] + ['\n'] + Join(ls[2..]))
  {
    assert ls[1..][0] == ls[1] && ls[1..][1..] == ls[2..];
  }

  // ---- the filename dialog of save_file ----

  /** The keys the filename field accepts: ASCII 32..126. */
  predicate Printable(c: char)
  {
    32 <= c as int <= 126
  }

  const MAX_NAME: nat := 15

  ghost predicate NameOk(name: seq<char>)
  {
    |name| <= MAX_NAME && forall k :: 0 <= k < |name| ==> Printable(name[k])
  }

  /** One key of the filename loop other than Enter: Del removes the last
      character, a printable key is added while there are fewer than 15,
      anything else is ignored. */
  function NameStep(name: seq<char>, k: Key): (r: seq<char>)
    requires NameOk(name)
    ensures NameOk(r)
  {
    match k
    case Del => if |name| > 0 then name[..|name| - 1] else name
    case Other(c) => if Printable(c) && |name| < MAX_NAME then name + [c] else name
    case _ => name
  }

  /** The filename loop: Enter ends it and every other key is a NameStep.
      None when the keys run out before Enter. */
  function EnterName(keys: seq<Key>, name: seq<char>): (r: Option<seq<char>>)
    requires NameOk(name)
    ensures r.Some? ==> NameOk(r.value)
    decreases |keys|
  {
    if keys == [] then None
    else if keys[0] == Enter then Some(name)
    else EnterName(keys[1..], NameStep(name, keys[0]))
  }

  /** The filename loop after its first key. */
  lemma EnterNameFirst(k: Key, rest: seq<Key>, name: seq<char>)
    requires NameOk(name)
    ensures EnterName([k] + rest, name) == if k == Enter then Some(name) else EnterName(rest, NameStep(name, k))
  {
    assert ([k] + rest)[0] == k && ([k] + rest)[1..] == rest;
  }

  /** The filename loop from key j on. */
  lemma EnterNameAt(keys: seq<Key>, j: nat, name: seq<char>)
    requires NameOk(name) && j < |keys|
    ensures EnterName(keys[j..], name)
      == if keys[j] == Enter then Some(name) else EnterName(keys[j + 1..], NameStep(name, keys[j]))
  {
    assert keys[j..][0] == keys[j] && keys[j..][1..] == keys[j + 1..];
  }

  function TypeKeys(s: seq<char>): (keys: seq<Key>)
    ensures |keys| == |s|
  {
    seq(|s|, i requires 0 <= i < |s| => Other(s[i]))
  }

  /** Typing a name of at most 15 printable characters and Enter gives that
      name. */
  lemma {:induction false} TypedNameIsKept(s: seq<char>, name: seq<char>, rest: seq<Key>)
    requires NameOk(name) && NameOk(name + s)
    ensures EnterName(TypeKeys(s) + [Enter] + rest, name) == Some(name + s)
    decreases |s|
  {
    if s == [] {
      assert TypeKeys(s) + [Enter] + rest == [Enter] + rest;
      assert name + s == name;
    } else {
      assert (TypeKeys(s) + [Enter] + rest)[0] == Other(s[0]);
      assert Printable(s[0]) && |name| < MAX_NAME by {
        assert s[0] == (name + s)[|name|];
      }
      assert NameOk(name + [s[0]]) by {
        assert name + [s[0]] == (name + s)[..|name| + 1];
      }
      assert (TypeKeys(s) + [Enter] + rest)[1..] == TypeKeys(s[1..]) + [Enter] + rest;
      assert name + [s[0]] + s[1..] == name + s;
      TypedNameIsKept(s[1..], name + [s[0]], rest);
    }
  }

  /** Del right after a character takes it away again. */
  lemma DelUndoesCharacter(name: seq<char>, c: char, rest: seq<Key>)
    requires NameOk(name) && Printable(c) && |name| < MAX_NAME
    ensures EnterName([Other(c), Del] + rest, name) == EnterName(rest, name)
  {
    assert [Other(c), Del] + rest == [Other(c)] + ([Del] + rest);
    EnterNameFirst(Other(c), [Del] + rest, name);
    assert NameStep(name, Other(c)) == name + [c];
    EnterNameFirst(Del, rest, name + [c]);
    assert (name + [c])[..|name|] == name;
    assert NameStep(name + [c], Del) == name;
  }

  /** A character typed when 15 are already there is dropped. */
  lemma FullNameDropsCharacter(name: seq<char>, c: char, rest: seq<Key>)
    requires NameOk(name) && |name| == MAX_NAME
    ensures EnterName([Other(c)] + rest, name) == EnterName(rest, name)
  {
    EnterNameFirst(Other(c), rest, name);
  }

  /** A name followed by a NUL reads back as that name. */
  lemma TerminatedName(a: seq<char>, name: seq<char>)
    requires NameOk(name) && |name| < |a| && a[..|name|] == name && a[|name|] == NUL
    ensures Str(a) == name
  {
    forall k | 0 <= k < |name|
      ensures a[k] != NUL
    {
      assert a[k] == name[k];
    }
    LenIs(a, |name|);
  }

  /** The loop of save_file over the keys typed into the filename field. The
      name is collected in the 17-byte filename array, which starts out
      holding "md.txt"; pos counts the characters typed. */
  method ReadFilename(keys: seq<Key>) returns (name: Option<seq<char>>)
    ensures name == EnterName(keys, [])
  {
    var filename := new char[MAX_NAME + 2](_ => NUL);
    filename[0], filename[1], filename[2], filename[3], filename[4], filename[5] := 'm', 'd', '.', 't', 'x', 't';
    name := EditName(filename, keys);
  }

  /** The loop itself, on the filename array whatever it holds. */
  method EditName(filename: array<char>, keys: seq<Key>) returns (name: Option<seq<char>>)
    requires filename.Length == MAX_NAME + 2
    modifies filename
    ensures name == EnterName(keys, [])
  {
    var pos: nat := 0;
    ghost var typed: seq<char> := [];
    var j := 0;
    while j < |keys|
      invariant j <= |keys| && pos == |typed| <= MAX_NAME
      invariant filename[..pos] == typed && NameOk(typed)
      invariant EnterName(keys[j..], typed) == EnterName(keys, [])
      decreases |keys| - j
    {
      var c := keys[j];
      EnterNameAt(keys, j, typed);
      if c == Enter {
        filename[pos] := NUL;
        TerminatedName(filename[..], typed);
        name := Some(Str(filename[..]));
        return;
      }
      pos := NameKey(filename, pos, c);
      typed := NameStep(typed, c);
      j := j + 1;
      assert EnterName(keys[j..], typed) == EnterName(keys, []);
    }
    name := None;
  }

  /** One key other than Enter applied to the name in filename[..pos]. */
  method NameKey(filename: array<char>, pos: nat, c: Key) returns (pos': nat)
    requires filename.Length == MAX_NAME + 2 && pos <= MAX_NAME && NameOk(filename[..pos])
    modifies filename
    ensures pos' <= MAX_NAME && filename[..pos'] == NameStep(old(filename[..pos]), c)
  {
    ghost var typed := filename[..pos];
    pos' := pos;
    if c == Del && pos > 0 {
      assert filename[..pos - 1] == typed[..pos - 1];
      pos' := pos - 1;
    } else if c.Other? && Printable(c.c) && pos < MAX_NAME {
      filename[pos] := c.c;
      assert filename[..pos + 1] == typed + [c.c];
      pos' := pos + 1;
    }
  }

  // ---- the directory listing of load_file ----

  /** cbm_dirent.type, as far as load_file looks at it. */
  datatype FileType = Prg | Sequential | OtherType

  datatype DirEntry = DirEntry(name: seq<char>, kind: FileType, size: nat)

  /** struct file_entry. */
  datatype FileEntry = FileEntry(name: seq<char>, size: nat)

  const MAX_FILES: nat := 50

  /** A PRG or SEQ file whose name is longer than 3 and ends in ".md". */
  predicate IsMarkdown(e: DirEntry)
  {
    (e.kind == Prg || e.kind == Sequential) && |e.name| > 3 && e.name[|e.name| - 3..] == ".md"
  }

  /** Every markdown entry of the directory, in directory order. */
  function MarkdownFiles(dir: seq<DirEntry>): (fs: seq<FileEntry>)
    ensures |fs| <= |dir|
  {
    if dir == [] then []
    else
      var e := dir[|dir| - 1];
      MarkdownFiles(dir[..|dir| - 1]) + (if IsMarkdown(e) then [FileEntry(e.name, e.size)] else [])
  }

  lemma {:induction false} MarkdownFilesPrefix(dir: seq<DirEntry>, j: nat)
    requires j <= |dir|
    ensures MarkdownFiles(dir[..j]) <= MarkdownFiles(dir)
    decreases |dir| - j
  {
    if j < |dir| {
      MarkdownFilesPrefix(dir, j + 1);
      assert dir[..j + 1][..j] == dir[..j];
    } else {
      assert dir[..j] == dir;
    }
  }

  /** The list holds exactly the markdown entries of the directory. */
  lemma {:induction false} MarkdownFilesExact(dir: seq<DirEntry>)
    ensures forall e :: e in dir && IsMarkdown(e) ==> FileEntry(e.name, e.size) in MarkdownFiles(dir)
    ensures forall f :: f in MarkdownFiles(dir) ==>
      exists e :: e in dir && IsMarkdown(e) && f == FileEntry(e.name, e.size)
  {
    if dir != [] {
      var init := dir[..|dir| - 1];
      MarkdownFilesExact(init);
      assert dir == init + [dir[|dir| - 1]];
      forall f | f in MarkdownFiles(dir)
        ensures exists e :: e in dir && IsMarkdown(e) && f == FileEntry(e.name, e.size)
      {
        if f in MarkdownFiles(init) {
          var e :| e in init && IsMarkdown(e) && f == FileEntry(e.name, e.size);
          assert e in dir;
        } else {
          assert dir[|dir| - 1] in dir;
        }
      }
    }
  }

  function Min(a: nat, b: nat): nat
  {
    if a <= b then a else b
  }

  /** The directory loop of load_file: it reads entries until the directory
      ends or 50 files were kept, and keeps the markdown ones. */
  method ReadDirectory(dir: seq<DirEntry>) returns (files: seq<FileEntry>)
    ensures files == MarkdownFiles(dir)[..Min(|MarkdownFiles(dir)|, MAX_FILES)]
  {
    files := [];
    var j := 0;
    while |files| < MAX_FILES
      invariant j <= |dir| && |files| <= MAX_FILES
      invariant files == MarkdownFiles(dir[..j])
      decreases MAX_FILES - |files|, |dir| - j
    {
      if j == |dir| {
        break;
      }
      var entry := dir[j];
      assert dir[..j + 1][..j] == dir[..j];
      if entry.kind == Prg || entry.kind == Sequential {
        var len := |entry.name|;
        if len > 3 && entry.name[len - 3..] == ".md" {
          files := files + [FileEntry(entry.name, entry.size)];
        }
      }
      j := j + 1;
    }
    MarkdownFilesPrefix(dir, j);
    if j == |dir| {
      assert dir[..j] == dir;
    }
  }

  // ---- the file browser of load_file ----

  /** CH_ESC, the key that leaves the browser. */
  const ESC: char := 27 as char

  datatype Choice = Open(index: nat) | Cancel

  /** The browser loop: Up and Down move the selection within the list,
      Enter opens the selected file, Esc cancels, anything else is ignored.
      None when the keys run out first. */
  function Browse(keys: seq<Key>, count: nat, selected: nat): (r: Option<Choice>)
    requires selected < count
    ensures r.Some? && r.value.Open? ==> r.value.index < count
    decreases |keys|
  {
    if keys == [] then None
    else match keys[0]
      case CursorUp => Browse(keys[1..], count, if selected > 0 then selected - 1 else selected)
      case CursorDown => Browse(keys[1..], count, if selected < count - 1 then selected + 1 else selected)
      case Enter => Some(Open(selected))
      case Other(c) => if c == ESC then Some(Cancel) else Browse(keys[1..], count, selected)
      case _ => Browse(keys[1..], count, selected)
  }

  function Repeat(k: Key, n: nat): (ks: seq<Key>)
    ensures |ks| == n && forall i :: 0 <= i < n ==> ks[i] == k
  {
    seq(n, _ => k)
  }

  /** n presses of Down and then Enter open entry selected + n, or the last
      entry when that runs past the end of the list. */
  lemma {:induction false} DownsThenEnter(count: nat, selected: nat, n: nat)
    requires selected < count
    ensures Browse(Repeat(CursorDown, n) + [Enter], count, selected) == Some(Open(Min(selected + n, count - 1)))
    decreases n
  {
    if n == 0 {
      assert Repeat(CursorDown, 0) + [Enter] == [Enter];
    } else {
      assert (Repeat(CursorDown, n) + [Enter])[1..] == Repeat(CursorDown, n - 1) + [Enter];
      DownsThenEnter(count, if selected < count - 1 then selected + 1 else selected, n - 1);
    }
  }

  /** n presses of Up and then Enter open entry selected - n, or the first. */
  lemma {:induction false} UpsThenEnter(count: nat, selected: nat, n: nat)
    requires selected < count
    ensures Browse(Repeat(CursorUp, n) + [Enter], count, selected)
      == Some(Open(if selected >= n then selected - n else 0))
    decreases n
  {
    if n == 0 {
      assert Repeat(CursorUp, 0) + [Enter] == [Enter];
    } else {
      assert (Repeat(CursorUp, n) + [Enter])[1..] == Repeat(CursorUp, n - 1) + [Enter];
      UpsThenEnter(count, if selected > 0 then selected - 1 else selected, n - 1);
    }
  }

  /** Rows of the file list: dialog height 15 minus borders and header. */
  const DISPLAY: nat := 15 - 4

  /** start_idx of draw_file_list: the list is shown in pages of 11. */
  function WindowStart(selected: nat): (start: nat)
    ensures start % DISPLAY == 0 && start <= selected < start + DISPLAY
  {
    (selected / DISPLAY) * DISPLAY
  }

  /** The entries draw_file_list shows: from start_idx on, 11 of them or as
      many as the list still has. The selected entry is always among them. */
  function Visible(count: nat, selected: nat): (shown: seq<nat>)
    requires selected < count
    ensures |shown| == Min(DISPLAY, count - WindowStart(selected)) && selected in shown
    ensures forall j :: 0 <= j < |shown| ==> shown[j] < count && shown[j] == WindowStart(selected) + j
  {
    var start := WindowStart(selected);
    var n := Min(DISPLAY, count - start);
    var shown := seq(n, i requires 0 <= i < n => start + i);
    assert shown[selected - start] == selected;
    shown
  }

  /** The navigation loop of load_file, with `selected` kept in 0..count-1. */
  method BrowseFiles(keys: seq<Key>, count: nat) returns (choice: Option<Choice>)
    requires count > 0
    ensures choice == Browse(keys, count, 0)
  {
    var selected: nat := 0;
    var j := 0;
    while j < |keys|
      invariant j <= |keys| && selected < count
      invariant Browse(keys[j..], count, selected) == Browse(keys, count, 0)
      decreases |keys| - j
    {
      assert keys[j..][1..] == keys[j + 1..];
      match keys[j] {
      case CursorUp =>
        if selected > 0 {
          selected := selected - 1;
        }
      case CursorDown =>
        if selected < count - 1 {
          selected := selected + 1;
        }
      case Enter =>
        return Some(Open(selected));
      case Other(c) =>
        if c == ESC {
          return Some(Cancel);
        }
      case _ =>
      }
      j := j + 1;
    }
    choice := None;
  }

  // ---- what the three dialogs do to the editor ----

  function IsYes(answer: Key): bool
  {
    answer == Other('y') || answer == Other('Y')
  }

  /** new_file: `y` or `Y` clears the buffer and homes the cursor; any other
      answer keeps the buffer, but the redraw loop leaves cursor_y on the
      highest row that is not empty. */
  function AfterNew(s: EditState, answer: Key): (t: EditState)
    requires StateOk(s)
    ensures StateOk(t)
  {
    if IsYes(answer) then EditState(ZeroGrid(), 0, 0)
    else
      var last := LastNonEmpty(s.grid, ROWS);
      if last >= 0 then s.(y := last) else s
  }

  /** The file save_file writes, when it gets that far. */
  function SavedFile(s: EditState, keys: seq<Key>, created: bool): Option<File>
    requires StateOk(s)
  {
    var name := EnterName(keys, []);
    if name.None? || !created then None else Some(File(name.value, SaveText(s.grid, s.y)))
  }

  /** save_file: when the file was written and can be opened again, the
      buffer is cleared and read back from it and the cursor goes home. */
  function AfterSave(s: EditState, keys: seq<Key>, created: bool, reopened: bool): (t: EditState)
    requires StateOk(s)
    ensures StateOk(t)
  {
    var f := SavedFile(s, keys, created);
    if f.Some? && reopened then
      ReadRowsOk(ZeroGrid(), f.value.text, 0);
      EditState(ReadRowsAsWritten(ZeroGrid(), f.value.text, 0), 0, 0)
    else s
  }

  /** The markdown files load_file lists. */
  function ListFiles(dir: seq<DirEntry>): seq<FileEntry>
  {
    MarkdownFiles(dir)[..Min(|MarkdownFiles(dir)|, MAX_FILES)]
  }

  /** load_file: with a file chosen that opens, its lines are read over the
      buffer, which is not cleared first, and the cursor goes home. In every
      other case nothing changes. */
  function AfterLoad(s: EditState, dir: seq<DirEntry>, keys: seq<Key>, disk: map<seq<char>, seq<char>>): (t: EditState)
    requires StateOk(s)
    ensures StateOk(t)
  {
    var files := ListFiles(dir);
    if |files| == 0 then s
    else
      var choice := Browse(keys, |files|, 0);
      if choice.Some? && choice.value.Open? && files[choice.value.index].name in disk then
        ReadRowsOk(s.grid, disk[files[choice.value.index].name], 0);
        EditState(ReadRowsAsWritten(s.grid, disk[files[choice.value.index].name], 0), 0, 0)
      else s
  }

  /** Confirming a new file clears the buffer and homes the cursor.
      Declining keeps the buffer and column; the cursor row stays when every
      row is empty and otherwise moves to the highest row that is not. */
  lemma NewFileEffect(s: EditState, answer: Key)
    requires StateOk(s)
    ensures var t := AfterNew(s, answer);
      (IsYes(answer) ==>
         t.grid == ZeroGrid() && t.x == 0 && t.y == 0
         && forall y :: 0 <= y < ROWS ==> Str(t.grid[y]) == [])
      && (!IsYes(answer) ==>
         t.grid == s.grid && t.x == s.x
         && ((forall y :: 0 <= y < ROWS ==> Empty(s.grid[y])) ==> t.y == s.y)
         && ((exists y :: 0 <= y < ROWS && !Empty(s.grid[y])) ==>
               !Empty(s.grid[t.y]) && forall y :: t.y < y < ROWS ==> Empty(s.grid[y])))
  {
  }

  /** F1 with a name typed, the file created and opened again: the cursor
      goes home, row j holds row j of SplitLines of the rows written (so a
      row of 79 characters is followed by an empty row), and every row after
      those is empty. */
  lemma SaveKeepsDocument(s: EditState, keys: seq<Key>)
    requires StateOk(s) && EnterName(keys, []).Some?
    requires NoNewlines(s.grid)
    ensures var t := AfterSave(s, keys, true, true);
      var ms := SplitLines(Lines(s.grid, WrittenRows(s.grid, s.y, ROWS)));
      t.x == 0 && t.y == 0
      && (forall j :: 0 <= j < |ms| && j < ROWS ==> Str(t.grid[j]) == ms[j])
      && (forall y :: |ms| <= y < ROWS ==> Str(t.grid[y]) == [])
  {
    assert AfterSave(s, keys, true, true).grid == ReadRowsAsWritten(ZeroGrid(), SaveText(s.grid, s.y), 0);
    SaveReloadAsWritten(s.grid, s.y);
  }

  /** F1 as above on a document without a row of 79 characters in which no
      empty row at or below the cursor lies above a non-empty one: every row
      comes back with its text. */
  lemma SaveKeepsShortRows(s: EditState, keys: seq<Key>)
    requires StateOk(s) && EnterName(keys, []).Some?
    requires NoNewlines(s.grid) && forall y :: 0 <= y < ROWS ==> Len(s.grid[y]) != COLS - 1
    requires forall i, j :: s.y <= i < j < ROWS && Empty(s.grid[i]) ==> Empty(s.grid[j])
    ensures var t := AfterSave(s, keys, true, true);
      t.x == 0 && t.y == 0 && forall y :: 0 <= y < ROWS ==> Str(t.grid[y]) == Str(s.grid[y])
  {
    SaveReloadAsWrittenRestoresRows(s.grid, s.y);
  }

  /** F3 with a file chosen whose text is a list of lines: the rows from 0
      on hold the rows SplitLines gives for those lines, the rows after them
      keep their old bytes, and the cursor goes home. */
  lemma LoadReadsChosenFile(s: EditState, dir: seq<DirEntry>, keys: seq<Key>,
                            disk: map<seq<char>, seq<char>>, ls: seq<seq<char>>)
    requires StateOk(s) && |ListFiles(dir)| > 0 && PlainLines(ls, COLS - 1)
    requires Browse(keys, |ListFiles(dir)|, 0).Some? && Browse(keys, |ListFiles(dir)|, 0).value.Open?
    requires ListFiles(dir)[Browse(keys, |ListFiles(dir)|, 0).value.index].name in disk
    requires disk[ListFiles(dir)[Browse(keys, |ListFiles(dir)|, 0).value.index].name] == Join(ls)
    ensures var t := AfterLoad(s, dir, keys, disk); var ms := SplitLines(ls);
      t.x == 0 && t.y == 0
      && (forall y :: 0 <= y < ROWS && y < |ms| ==> Str(t.grid[y]) == ms[y])
      && (forall y :: |ms| <= y < ROWS ==> t.grid[y] == s.grid[y])
  {
    LoadReadsLines(s.grid, ls);
  }

  /** F3 with any file chosen: the cursor goes home and every row after the
      Turns(file, 0) rows the loop fills keeps its old bytes. */
  lemma LoadKeepsChosenFileBelow(s: EditState, dir: seq<DirEntry>, keys: seq<Key>,
                                 disk: map<seq<char>, seq<char>>)
    requires StateOk(s) && |ListFiles(dir)| > 0
    requires Browse(keys, |ListFiles(dir)|, 0).Some? && Browse(keys, |ListFiles(dir)|, 0).value.Open?
    requires ListFiles(dir)[Browse(keys, |ListFiles(dir)|, 0).value.index].name in disk
    ensures var t := AfterLoad(s, dir, keys, disk);
      var text := disk[ListFiles(dir)[Browse(keys, |ListFiles(dir)|, 0).value.index].name];
      t.x == 0 && t.y == 0
      && forall y :: Turns(text, 0) <= y < ROWS ==> t.grid[y] == s.grid[y]
  {
    var text := disk[ListFiles(dir)[Browse(keys, |ListFiles(dir)|, 0).value.index].name];
    LoadKeepsRowsBelow(s.grid, text);
  }
}
