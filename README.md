# md-c128 in Dafny

A model of the Markdown editor for the Commodore 128 (`markdown.c`), with
proofs about it. The editor keeps a document of 21 rows of 80 bytes
(`screen_buffer`). Each row is a C string. A cursor (`cursor_x`, `cursor_y`)
moves over the rows, and keys change them in place:

- Typing overwrites the byte at the cursor and puts a NUL right after it.
- Del moves left and ends the row there.
- Enter and the arrow keys only move the cursor.
- F1 saves the document, F3 loads a `.md` file from a list, F5 clears the
  document after a y/N question.

After every key the cursor's row is painted again. An inline-markup scan picks
a colour for each character: bold `**…**`, italic `*…*`, monospace `'…'`, and
the headers `#` and `##`. The file also holds `wrap_line`, which breaks a full
row at its last space and shifts the rows below it down. Nothing in the file
calls `wrap_line`.

The modules follow the program's parts:

- `Buffer` holds the rows, `strlen`, `strcpy` and `memset`. A row keeps its
  bytes after the first NUL. Every write puts a NUL right after what it
  writes, so no `strlen` sees them again, but the Right arrow tests the byte
  under the cursor and so those bytes decide where the cursor can move.
- `Markup` holds the scan of `format_current_line` and
  `format_line_without_cursor`. The two functions hold the same loop, so it is
  modelled once, as the function `Tokenize`. `Tokenize` cuts the row into
  spans, and `RuleHolds` states the marker rules without recursion. The
  method `Format` keeps the source's nested loops and is proved to emit
  exactly `Tokenize`.
- `Wrap` holds `wrap_line` as a function on the rows.
- `Editing` holds the key type, the state (rows and cursor) and the effect of
  each editing key.
- `Files` holds the buffer-level logic of the three dialogs:
  - which rows `save_file` writes, and how;
  - the `fgets` read loop;
  - the filename field;
  - the `.md` filter of the directory;
  - the file browser and its window of 11 entries;
  - the effect of each dialog on the state.
- `Session` holds the class `Editor`. Its fields are `screen_buffer` (an
  `array2<char>`), `cursor_x` and `cursor_y`. Its methods are the source's
  routines. Each method is proved to change the state exactly as the
  function of the modules above says.

The disk, the directory and the keyboard are parameters. A file is a
`seq<char>`, the directory is a list of entries, and the keys typed into a
dialog are a list of `Key`s. Whether `fopen` succeeds is also a parameter.

## Model

| member | source | states |
|---|---|---|
| Buffer.Len | markdown.c:183 | strlen: no NUL before the result, and a NUL at it when it is inside the row |
| Buffer.StrCpyFacts | markdown.c:201 | strcpy of a string of at most 79 non-NUL characters keeps the row's final NUL, and the row then holds exactly that string |
| Buffer.LastNonEmpty | markdown.c:538-545 | the highest row that is not empty, with every row above it empty; -1 when all rows are empty |
| Buffer.ZeroGrid | markdown.c:86 | after memset every row is well formed and empty |
| Markup.BoldEnd | markdown.c:113-121 | the end of a bold span lies between the body's start and the row's NUL; what it is, is stated by `BoldEndCloses` |
| Markup.CloseEnd | markdown.c:127-135 | the end of an italic or code span lies between the body's start and the row's NUL; what it is, is stated by `CloseEndCloses` |
| Markup.SpanAt | markdown.c:109-167 | the span formed at i starts at i, is not empty and ends by the NUL; the rule it follows is stated by `SpansObeyRules` |
| Markup.Tokenize | markdown.c:108-168 | definition of what format_current_line writes; stated by `TokenizeCells`, `TokenizeSpellsRow` and `Format` |
| Markup.BoldEndCloses | markdown.c:113-122 | a bold span ends just past the first `**`, or at the end of the row; a lone `*` does not end it |
| Markup.CloseEndCloses | markdown.c:123-151 | an italic or mono span ends just past the first `*` (even when it is half of a `**`) or the first `'`, or at the end of the row |
| Markup.SpansObeyRules | markdown.c:108-168 | the spans tile the row from column 0 to strlen; each span has the style and the end the marker rules give for its first character (the order `**`, `*`, `'`, `##`, `#`, otherwise one Normal character) |
| Markup.TokenizeCells | markdown.c:108-168 | one cell per character before the first NUL, each in the style of the span holding it |
| Markup.TokenizeSpellsRow | markdown.c:108-168 | the characters emitted are exactly the row's string, each once, in order |
| Markup.HeaderAtColumnZero | markdown.c:152-163 | a row starting with `#` is entirely H2 when the next character is `#`, H1 otherwise |
| Markup.EmitBold | markdown.c:109-122 | the bold loop emits the cells of the bold span and stops at its end |
| Markup.EmitQuoted | markdown.c:123-151 | the italic and mono loops emit the cells of their span and stop at its end |
| Markup.EmitRest | markdown.c:152-163 | the header loops emit the cells of their span, from the `#` up to the row's NUL |
| Markup.PaintFromAll | markdown.c:108-168 | the cells the scan emits from position i on are the cells of the spans from i on, and those spans fit the row |
| Markup.EmitSpan | markdown.c:108-167 | one pass of the outer loop, the one-character Normal case included, emits the cells of the span at i and stops at its end |
| Markup.Format | markdown.c:102-168 | the whole scan emits exactly `Tokenize` of the row |
| Wrap.LastSpace | markdown.c:188-193 | the last space among the indices looked at, or 0 when there is none |
| Wrap.BreakIndex | markdown.c:188-198 | definition of `last_space` after the scan and its fallback; stated by `BreakIndexIsLastSpace` |
| Wrap.BreakIndexIsLastSpace | markdown.c:188-198 | the break is the last space in 1..78, or 79 when there is none |
| Wrap.Wrap | markdown.c:177-208 | the rows stay well formed |
| Wrap.WrapShortIsNoOp | markdown.c:183-186 | nothing changes on row 20 or beyond, or on a row shorter than 79 characters |
| Wrap.WrapMovesRows | markdown.c:200-207 | rows above are untouched; the row keeps its text up to the break; the next row gets the text after it; every lower row gets the old text of the row above it; the last row's text is lost |
| Wrap.WrapRelocates | markdown.c:205-207 | the kept text, the breaking space and the moved text together are the old row |
| Wrap.WrapAgain | markdown.c:183-207 | after a break at a space a second wrap does nothing; after a break at 79 the row still wraps |
| Wrap.WrapAsWritten | markdown.c:180-208 | definition of wrap_line as written, with the self-copy; stated by `WrapAsWrittenRepeatsNextRow` and `WrapShortIsNoOp` |
| Wrap.WrapAsWrittenRepeatsNextRow | markdown.c:205-206 | as written, a row with no space makes the next row keep its text while a copy of it also moves down |
| Editing.Step | markdown.c:239-300 | every editing key keeps the cursor in 80 x 21 and the NUL in column 79 of every row |
| Editing.Run | markdown.c:782-784 | any sequence of editing keys keeps those bounds |
| Editing.TypedRowNoNewline | markdown.c:292-299 | a key other than a newline typed into a row whose text has no newline leaves it without one |
| Editing.StepKeepsNoNewlines | markdown.c:239-299 | no editing key puts a newline into the text of a row, since the switch's Enter case only moves the cursor |
| Editing.RunKeepsNoNewlines | markdown.c:782-784 | no sequence of editing keys does either |
| Editing.TypedRow | markdown.c:292-299 | a key typed into a row below column 79 makes the row's string the old one up to the cursor plus the key, or leaves it when the cursor was past the end |
| Editing.TypedCharacter | markdown.c:292-299 | below column 79 the key is stored, a NUL follows it, the cursor moves right and no other byte changes; the new length is the old column plus one when the cursor was at or before the end of the row; at column 79 nothing happens |
| Editing.DeleteKey | markdown.c:246-262 | away from column 0 the cursor moves left and only the byte at the new column becomes NUL, so the row is cut there and every other byte of the buffer stays; at column 0 the cursor goes to the end of the row above and the buffer is unchanged; at (0,0) nothing happens |
| Editing.CursorKeys | markdown.c:239-278 | Enter and the arrows never change the buffer; Up and Down keep the column; Right moves only onto a byte that is not NUL |
| Editing.TypingMidRowTruncates | markdown.c:292-299 | typing x at column 1 of "abc" leaves "ax" |
| Editing.TypingAtLastCharacter | markdown.c:292-299 | typing x at column 2 of "abc" leaves "abx" |
| Editing.DeleteMidRowTruncates | markdown.c:246-250 | Del at column 3 of "abcdef" leaves "ab" |
| Files.Written | markdown.c:426-431 | definition of the test for writing a row: not empty, or empty above the cursor; stated by `WrittenRowsExact` |
| Files.WrittenRows | markdown.c:425-432 | the rows written lie below the bound |
| Files.WrittenRowsExact | markdown.c:425-432 | a row is written if and only if it is not empty or lies above the cursor; the rows written appear once each, in order |
| Files.WrittenRowsPrefix | markdown.c:425-432 | the rows written from a shorter stretch are the first ones written from a longer one |
| Files.SaveText | markdown.c:425-432 | definition of the file save_file writes; stated by `SaveTextStep`, `WrittenRowsExact` and `SaveReloadAsWritten` |
| Files.SaveTextStep | markdown.c:425-432 | each row written adds its string and a newline to the file |
| Files.FgetsCount | markdown.c:454 | fgets takes at most 79 characters and the whole text when it is shorter; no newline comes before the last one taken; it stops early only after a newline |
| Files.FgetsCountIs | markdown.c:454 | fgets takes exactly t characters whenever it may stop at t |
| Files.FillRow | markdown.c:454-460 | the row read stays well formed |
| Files.ReadRowsAsWritten | markdown.c:453-461 | the source's read loop keeps 21 rows; what it reads is stated by `ReadAsWrittenJoin`, `ReadAsWrittenKeepsAbove` and `ReadAsWrittenKeepsBelow` |
| Files.ReadRows | markdown.c:453-461 | the corrected read loop keeps 21 rows; what it reads is stated by `ReadRowsLines` and `SaveReloadRoundTrip` |
| Files.ReadRowsOk | markdown.c:453-461 | both read loops, as written and corrected, keep the 21 rows well formed |
| Files.FillRowIsLineRow | markdown.c:454-460 | a row filled from a line of at most 79 characters (and its newline when it fits) holds exactly that line |
| Files.ReadOneLine | markdown.c:454-460 | the corrected loop consumes a line of at most 79 characters and its newline in one turn, filling one row from it |
| Files.ReadOneLineAsWritten | markdown.c:454-460 | as written, the turn that reads a line of 79 characters leaves its newline unread |
| Files.ReadRowsLines | markdown.c:453-461 | for the corrected loop `ReadRows` (the corrected half of the fgets Finding, not the source's loop): reading lines of at most 79 characters back fills row i+j with line j; rows above i and below the last line read keep their bytes |
| Files.ReadAsWrittenKeepsAbove | markdown.c:453-461 | the read loop never changes a row above the one it starts at |
| Files.ReadNewlineAsWritten | markdown.c:454-460 | as written, a newline left unread by the previous fgets is read alone into the next row |
| Files.FullLineAsWritten | markdown.c:454-460 | as written, a 79-character line and its newline take two turns: the line fills one row and the newline the next |
| Files.ReadAsWrittenFullLineRows | markdown.c:453-461 | as written, a 79-character line and the line after it fill three rows: the line, the lone newline and the next line |
| Files.ReadAsWrittenSplitsFullLine | markdown.c:453-461 | as written, a 79-character line comes back as that line, an empty row, and then the next line one row lower |
| Files.ReadAsWrittenTwoLines | markdown.c:446-461 | as written, a file whose first line has 79 characters reloads with that line in row 0, row 1 empty and its second line in row 2 |
| Files.SplitShortLines | markdown.c:453-461 | when no line has 79 characters, the loop as written fills exactly one row per line |
| Files.SplitLinesPlain | markdown.c:453-461 | the rows the loop as written fills are lines of at most 79 characters without NUL or newline |
| Files.ReadAsWrittenJoin | markdown.c:453-461 | the source's loop reads a file of lines as one row per line, with an empty row after each line of exactly 79 characters |
| Files.ShortLineStep | markdown.c:454-461 | a line shorter than 79 characters takes one turn of the source's loop and one row |
| Files.FullLineStep | markdown.c:454-461 | a 79-character line takes two turns of the source's loop and two rows, the second one empty |
| Files.LastFullLineStep | markdown.c:453-461 | a 79-character line read into row 20 leaves its newline unread, since the loop stops after 21 rows |
| Files.ReadAsWrittenLines | markdown.c:453-461 | as written, row i+j receives row j of `SplitLines`; rows above i and below the last row filled keep their bytes |
| Files.ReadAsWrittenIntoCleared | markdown.c:446-461 | as written, reading into the cleared buffer fills rows 0 on with `SplitLines` and leaves every later row empty |
| Files.FilledRow | markdown.c:446-461 | as written, row j of the cleared buffer holds row j of `SplitLines` |
| Files.ReadAsWrittenClearedBelow | markdown.c:446-461 | as written, the rows of the cleared buffer past the last row filled stay empty |
| Files.FillRowNoNewline | markdown.c:454-460 | a line from fgets has a newline only as its last character, and after the loop strips it the row's text has none |
| Files.StrCpyPrefix | markdown.c:454 | a line stored by fgets reads back as itself up to its first NUL |
| Files.ReadAsWrittenNoNewlines | markdown.c:453-461 | reading a file never leaves a newline in the text of a row |
| Files.Turns | markdown.c:697-702 | the read loop makes at most one turn per character and never runs past row 20, and it makes none exactly when it starts past the last row or the file is empty |
| Files.ReadAsWrittenKeepsBelow | markdown.c:697-702 | the read loop never changes a row past the last one it fills |
| Files.NoNewlineTurns | markdown.c:697-702 | a text with no newline takes one row per 79 characters, rounded up and capped by the rows left: `"abc"` takes one row, a 100-character line two |
| Files.LoadKeepsRowsBelow | markdown.c:695-704 | load_file does not clear the buffer: for any file, every row after the `Turns(text, 0)` rows the read loop fills keeps its old bytes, and all rows stay well formed |
| Files.LoadReadsLines | markdown.c:695-704 | for a file of newline-terminated lines, rows 0 on receive the rows of `SplitLines` of those lines (a 79-character line is followed by an empty row), and every row after those keeps its old bytes |
| Files.SaveReloadRoundTrip | markdown.c:425-461 | for the corrected loop (the corrected half of the fgets Finding): after save and reload, row j holds the text of the j-th row written and every later row is empty |
| Files.WrittenPrefix | markdown.c:425-432 | when no empty row at or below the cursor comes before a non-empty row, the rows written are exactly rows 0..m-1 |
| Files.SaveReloadRestoresRows | markdown.c:425-461 | for the corrected loop, under that condition save and reload give back the text of every row |
| Files.SaveReloadAsWritten | markdown.c:425-461 | as written, after save and reload row j holds row j of `SplitLines` of the rows written, and every later row is empty |
| Files.ReadLoopsAgree | markdown.c:453-461 | when no line has 79 characters the loop as written and the corrected loop read the same rows |
| Files.WrittenLinesShort | markdown.c:425-432 | rows shorter than 79 characters are written as lines shorter than 79 |
| Files.SaveReloadAsWrittenRestoresRows | markdown.c:425-461 | as written, save and reload give back the text of every row when no row holds 79 characters and no empty row at or below the cursor lies above a non-empty one |
| Files.SaveReloadAsWrittenInsertsRow | markdown.c:425-461 | as written, a document whose row 0 holds 79 characters comes back with row 0, an empty row 1, and its row 1 in row 2 |
| Files.NameStep | markdown.c:398-407 | a key other than Enter keeps the name at most 15 characters, all in ASCII 32..126 |
| Files.EnterName | markdown.c:392-409 | a finished filename has at most 15 characters, all in ASCII 32..126 |
| Files.EnterNameFirst | markdown.c:392-409 | Enter ends the loop with the name typed so far; any other key is applied and the loop goes on |
| Files.TypedNameIsKept | markdown.c:392-409 | typing a name of at most 15 printable characters and then Enter gives that name |
| Files.DelUndoesCharacter | markdown.c:398-407 | Del right after a typed character removes it again |
| Files.FullNameDropsCharacter | markdown.c:403-407 | a character typed when the name already has 15 is ignored |
| Files.TerminatedName | markdown.c:396-397 | the NUL written after the typed characters makes the filename read back as exactly those characters |
| Files.ReadFilename | markdown.c:372-409 | the filename dialog gives what `EnterName` gives, whatever the array held first |
| Files.EditName | markdown.c:392-409 | the loop over the keys gives what `EnterName` gives |
| Files.NameKey | markdown.c:398-407 | one key changes the typed characters as `NameStep` says |
| Files.MarkdownFiles | markdown.c:636-646 | no more entries than the directory has |
| Files.MarkdownFilesPrefix | markdown.c:635-647 | the markdown files of the first j entries are the first ones of the whole directory |
| Files.IsMarkdown | markdown.c:638-642 | definition of the filter's test; stated by `MarkdownFilesExact` |
| Files.MarkdownFilesExact | markdown.c:638-645 | the list holds exactly the PRG and SEQ entries whose name is longer than 3 and ends in ".md" |
| Files.ReadDirectory | markdown.c:635-647 | the directory loop keeps the first 50 markdown files, in directory order |
| Files.ListFiles | markdown.c:635-647 | definition of the list load_file shows; stated by `ReadDirectory` |
| Files.Browse | markdown.c:666-731 | an opened entry is always inside the list |
| Files.DownsThenEnter | markdown.c:675-685 | n presses of Down and then Enter open entry min(selected + n, count - 1) |
| Files.UpsThenEnter | markdown.c:669-685 | n presses of Up and then Enter open entry max(selected - n, 0) |
| Files.BrowseFiles | markdown.c:666-731 | the navigation loop keeps `selected` in 0..count-1 and gives what `Browse` gives |
| Files.WindowStart | markdown.c:489-490 | the list is shown from a multiple of 11 and the selected entry lies in that page |
| Files.Visible | markdown.c:499-509 | exactly min(11, count - start) entries are shown, consecutive from the window start and inside the list, and the selected one is among them |
| Files.AfterNew | markdown.c:750-777 | the state stays well formed |
| Files.NewFileEffect | markdown.c:750-777 | y or Y zeroes the whole buffer and puts the cursor at (0,0); any other answer keeps the buffer and column, leaves cursor_y alone when every row is empty, and otherwise puts it on a non-empty row with every row below it empty |
| Files.IsYes | markdown.c:751 | definition of the answer test of new_file; stated by `NewFileEffect` |
| Files.SavedFile | markdown.c:371-432 | definition of the file written, when a name is entered and fopen succeeds; stated by `Session.Editor.SaveFile` and `SaveKeepsDocument` |
| Files.AfterSave | markdown.c:411-476 | the state stays well formed; the reload is the source's loop |
| Files.SaveKeepsDocument | markdown.c:425-476 | a save that gets through both opens puts the cursor at (0,0), fills rows 0 on with `SplitLines` of the rows written and empties every later row |
| Files.SaveKeepsShortRows | markdown.c:425-476 | such a save brings back every row's text when no row holds 79 characters and no empty row at or below the cursor lies above a non-empty one |
| Files.AfterLoad | markdown.c:681-722 | the state stays well formed; the read is the source's loop |
| Files.LoadReadsChosenFile | markdown.c:681-722 | loading a chosen file made of newline-terminated lines fills rows 0 on with `SplitLines` of its lines, leaves later rows as they were, and puts the cursor at (0,0) |
| Files.LoadKeepsChosenFileBelow | markdown.c:681-722 | loading any chosen file puts the cursor at (0,0) and leaves every row after the `Turns` rows the read fills as it was |
| Session.Dispatch | markdown.c:239-305 | any key, the dialogs included, keeps the cursor inside the buffer, so the clamp at the end of handle_input never fires |
| Session.DispatchKeepsNoNewlines | markdown.c:239-305 | no key, the dialogs included, puts a newline into the text of a row, so every state the editor reaches meets the condition of the save round trips |
| Session.SaveSplitsFullRow | markdown.c:280-282 | F1 on a document whose row 0 holds 79 characters brings back row 0, an empty row 1 and the old row 1 in row 2 |
| Session.EndOfText | markdown.c:537-545 | the cursor goes to the end of the highest non-empty row, with every row below it empty; row 0 when all rows are empty |
| Session.Editor.constructor | markdown.c:76-100 | init_screen: an empty buffer and the cursor at (0,0) |
| Session.Editor.Clear | markdown.c:86 | memset zeroes every byte |
| Session.Editor.HandleInput | markdown.c:226-313 | the new state is `Dispatch` of the old state and the key; F1 returns the file written; the cells painted are `Tokenize` of the cursor's row |
| Session.Editor.ApplyKey | markdown.c:239-305 | the switch on the key changes the state as `Dispatch` says; only F1 returns a file |
| Session.Editor.EditKey | markdown.c:239-278 | the editing keys change the state as `Step` says |
| Session.Editor.DeleteChar | markdown.c:246-262 | Del changes the state as `Step` says |
| Session.Editor.TypeChar | markdown.c:292-299 | a typed key changes the state as `Step` says |
| Session.Editor.FormatCurrentLine | markdown.c:102-168 | the cells painted are `Tokenize` of the cursor's row |
| Session.Editor.FormatLineWithoutCursor | markdown.c:549-616 | the cells painted are `Tokenize` of row n, the same scan |
| Session.Editor.Put | markdown.c:295-297 | writing one byte of the buffer changes that byte of the grid and nothing else |
| Session.Editor.StrLen | markdown.c:255 | the scan returns the row's length, the first NUL, below 80 |
| Session.Editor.Get | markdown.c:183-206 | a byte read from the buffer is that byte of the grid |
| Session.Editor.CopyString | markdown.c:201-206 | strcpy between two rows, reading no further than the end of the source row |
| Session.Editor.FindBreak | markdown.c:188-198 | the scan for the last space gives `BreakIndex` of the row |
| Session.Editor.ShiftDown | markdown.c:200-203 | the downward copy gives every row below ln+1 the text of the row above it |
| Session.WrapIsShiftThenCopy | markdown.c:200-207 | the downward copy, then the copy of the text after the break, then the NUL at the break, give `Wrap` |
| Session.Editor.WrapLine | markdown.c:177-208 | the buffer becomes `Wrap` of the old buffer |
| Session.Editor.WriteRows | markdown.c:425-432 | the text written is `SaveText` of the buffer and cursor row |
| Session.Editor.Fgets | markdown.c:454 | the row receives the characters fgets takes and a NUL; the other bytes stay |
| Session.Editor.StoreString | markdown.c:454 | the characters stored and the NUL after them make the row `StrCpy` of them; the other rows stay |
| Session.Editor.ReadLine | markdown.c:454-461 | one turn of the read loop fills the row as `FillRow` says and leaves unread what follows the characters fgets took |
| Session.Editor.ReadFile | markdown.c:453-461 | the buffer becomes `ReadRowsAsWritten` of the old buffer and the text |
| Session.Editor.SaveFile | markdown.c:369-477 | the state becomes `AfterSave`; the file written is `SavedFile` |
| Session.Editor.LoadFile | markdown.c:618-731 | the state becomes `AfterLoad` |
| Session.Editor.NewFile | markdown.c:735-777 | the state becomes `AfterNew` of the first key typed |
| Session.Editor.ApplyFormatting | markdown.c:536-546 | the buffer is unchanged and the cursor is `EndOfText` |

## Left out

- Screen painting (`videomode`, `gotoxy`, `cclear`, `textcolor`, `cputc`, the
  header, the status line, the dialog boxes) is not modelled. The tokenizer
  returns the cells it would paint instead.
- Keys are an abstract datatype. `cgetc`, `get_key`, `kbhit`, `check_shift`
  and the `PEEK(211)` shift register read hardware.
- `Key` names the keys the switch of `handle_input` handles. `Other(c)`
  carries any other byte; `CharCode` excludes the named codes, with the values
  of cc65's `cbm.h`, which is not part of this model. Esc in the file browser
  is character 27.
- `fopen`, `fprintf`, `fclose` and the `cbm_*` directory calls are foreign.
  Their results are parameters: a file is text, the directory a list of
  entries, and success of `fopen` a flag or membership in a map.
- A dialog waits forever for keys. When the keys given run out first, the
  model returns the state unchanged (and no file): nothing in the source
  changes the state before the dialog is answered.
- The key presses that only close a message box (after an error, and after
  "File saved") change nothing and are not modelled.
- The redraw loops at the end of `save_file`, `load_file` and `new_file`
  paint each non-empty row. Only their effect on `cursor_y` is kept. The loops
  of `save_file` and `new_file` set `cursor_y` to each row they paint; in
  `save_file` the final `cursor_y = 0` overwrites that. The loop of
  `load_file` calls `format_line_without_cursor`, which leaves `cursor_y`
  alone.
- `apply_formatting`: its first two passes only paint. Both the painting and
  the cursor updates of the second pass are left out, because the final pass
  overwrites them. Nothing in the file calls `apply_formatting`.
- The clamp `if (cursor_y >= MAX_LINES)` at the end of `handle_input` has no
  statement in `HandleInput`. `Dispatch` proves it can never fire.
- `main`'s infinite loop is modelled only as the bounded fold `Run` over a
  list of keys.
- The out-of-bounds read `line[i+1]` at i = 79 cannot happen: every row keeps
  a NUL in column 79, and the scan stops at the first NUL.
- Session.Editor.WrapLine: when there is no space, the source copies a row onto
  itself, which is undefined in C. The method follows the corrected `Wrap`
  (see Findings). `Wrap.WrapAsWritten` models the self-copy as leaving the row
  unchanged.

What the code does when a key is typed:

- A typed character always writes a NUL right after itself, so the rest of
  the row is cut off. Typing `x` at column 1 of `"abc"` gives `"ax"`
  (`Editing.TypingMidRowTruncates`), and at column 2 it gives `"abx"`
  (`Editing.TypingAtLastCharacter`).
- Nothing calls `wrap_line`. Typing never wraps, and column 79 takes no
  further characters.
- The cursor clamp at the end of `handle_input` never fires, because no key can move the cursor
  out of bounds (`Session.Dispatch`).

## Findings

| source | as written | input that shows it | evidently intended | confidence | as-written member | corrected member |
|---|---|---|---|---|---|---|
| markdown.c:195-206 | with no space in row ln, `last_space` becomes 79 and `strcpy(next_line, &current_line[80])` copies row ln+1 onto itself | row 0 of 79 `a`s without a space, row 1 `"b"`, `wrap_line(0)` | the row is broken at 79: row 0 keeps its 79 characters and row 1 becomes empty while the old rows shift down | not executed | Wrap.WrapAsWrittenRepeatsNextRow | Wrap.WrapMovesRows |
| markdown.c:454, markdown.c:697 | `fgets(row, 80, fp)` reads a saved 79-character row without its newline; the next call reads that newline alone as an extra empty row | row 0 of 79 characters and row 1 `"b"`, saved with F1 and reloaded | the newline that ends a 79-character row is consumed with it, so row 1 comes back in row 1 | not executed | Files.SaveReloadAsWrittenInsertsRow | Files.SaveReloadRoundTrip |

The editor model keeps the source's behaviour where it is defined: `AfterSave`,
`AfterLoad` and `Editor.ReadFile` use the loop as written,
`Files.ReadRowsAsWritten`, and `SaveKeepsDocument`, `LoadReadsChosenFile` and
`Session.SaveSplitsFullRow` state what it does to a 79-character row. The
corrected loop `Files.ReadRows` exists only as the corrected half of that
finding. The self-copy of `wrap_line` is undefined in C, so there the editor
follows the corrected `Wrap`.
