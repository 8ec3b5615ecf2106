# BlueTerm's terminal engine in Dafny

BlueTerm is a Bluetooth serial terminal for Java ME phones. Its engine is the
class `TelnetCanvas`. That class receives the byte stream one byte at a time. A
three-state recogniser (NORMAL, ESCAPE, PARAMS) picks out ANSI control sequences
of the form `ESC [ parameters final`. Plain bytes go to `processData`, which writes
them into a linear screen buffer. That buffer holds rows of `columns` cells one
after another, and scroll-back is kept above the visible screen. A sequence's
parameters collect in `argbuf`, a Pascal-style `char` array whose slot 0 holds the
count. When the final byte arrives, `processCommand` runs it. The commands are:

- cursor moves: `H f A B C D d G`;
- in-place shifts: `@ L M P`;
- erasure: `J K`;
- save and restore of the cursor: `s u`;
- highlight: `m`.

Two more pieces of state matter. `bound` is the furthest row boundary the cursor
has reached. `scrollY`, the first row shown, follows new input unless the user has
scrolled back with the scroll-lock keys.

The project has one module per part of the engine:

| module | what it holds |
|---|---|
| `JavaNum` | Java's signed `byte`, 16-bit `char`, `(short)` cast, and the `%` that truncates toward zero |
| `Faults` | the throwables `processCommand` catches, as values |
| `Arguments`, `ArgumentFields` | `getArgument` and `getArgumentCount` as functions, and their agreement with a plain split on `;` |
| `Cells` | the buffer loops of the commands as step functions |
| `Commands`, `CommandLaws` | `processCommand` as a function `Execute`, and what it does for the sequences a host sends |
| `DataSink` | `processData` and the viewport arithmetic |
| `Parser` | the recogniser and the argument buffer's growth |
| `Terminal` | the class `Canvas` with the fields of `TelnetCanvas` and its operations as methods |

Each method of `Canvas` is proved against the function that specifies it. The
properties are proved about those functions.

Out-of-range array accesses throw in Java. The model checks every index
explicitly:

- In a command, the throwable is caught by `processCommand` after whatever the
  command had already written. `Outcome.Aborted` records it, and the cells stay as
  the loop left them.
- In `processData`, the store `buffer[cursor++] = b` is not caught. The cursor has
  already moved on when it throws. The model returns `fault` from `ProcessData`
  and `Receive`.

The code is modelled as written, including these behaviours:

- `@` shifts one cell too far: it moves cells up to and including the first cell
  of the next row, and leaves cell `cursor + n` as it was.
- `L` writes cell `bound`, one past the screen.
- `M` and `P` move up only the `n` cells at the cursor and zero the rest instead
  of moving them.
- `P` at the first column of a row does nothing.
- `G n` lands one column right of `H`'s column n.
- `u` before any `s` moves the cursor to -1.
- `getArgument(0)` with no parameters parses a stale slot.
- An empty last field (`ESC [ 5 ; H`) is not reported missing: it reads the slot
  just past the collected characters, left over from an earlier, longer sequence.
- `getArgumentCount` does not look at the last parameter character.

The code and its design intent differ in a few places, and the model follows the
code:

- The cursor may become negative. Backspace at cell 0, `A`, `D` and `u` before `s`
  all do this, and the code never clamps it.
- The eviction when the buffer cannot grow does not clamp the cursor at 0.
- The eviction does not lower `bound`, so the "re-pin `scrollY` to the new last
  screen" step never changes anything.
- `@` does not stop at the row boundary.

## Model

| member | source | states |
|---|---|---|
| JavaNum.JRem | src/TelnetCanvas.java:358-362 | Java's `%` for a positive divisor: the remainder differs from the dividend by a multiple of the divisor, is smaller than the divisor in size, and takes the sign of the dividend |
| JavaNum.ShortCast | src/TelnetCanvas.java:383 | the `(short)` cast keeps a 16-bit signed value congruent to its input, and is the identity inside the `short` range |
| JavaNum.ToChar | src/TelnetCanvas.java:276 | `(char) b` sign-extends the byte: non-negative bytes keep their value, negative ones gain 65536 |
| JavaNum.CharSucc | src/TelnetCanvas.java:266 | `argbuf[0]++` on a `char` adds one, and wraps 65535 to 0 |
| Arguments.ParseInt | src/TelnetCanvas.java:651 | Integer.parseInt accepts only an optional `-` followed by digits; a result fits an `int`; every failure is NumberFormatException; a parsed field has no `;` |
| Arguments.DecimalValueOfDecimal | src/TelnetCanvas.java:651 | the value of a number's decimal spelling is that number |
| Arguments.ParseDecimal | src/TelnetCanvas.java:651 | parseInt of the decimal spelling of any `int`, with or without a minus sign, gives back that `int` |
| Arguments.FieldEnd | src/TelnetCanvas.java:646-650 | the `b` scan stops at the first `;` at or after its start before the logical end, or at the end, and never passes the end |
| Arguments.FindSeparator | src/TelnetCanvas.java:639-643 | the inner scan returns a `;` position at or after its start, the field end when that comes before the logical end, and IndexOutOfBounds otherwise |
| Arguments.SkipFields | src/TelnetCanvas.java:637-645 | the outer loop never moves backwards, and after at least one turn stops just past a `;` |
| Arguments.ArgumentAt | src/TelnetCanvas.java:632-652 | whatever getArgument returns fits an `int` |
| Arguments.ArgumentCount | src/TelnetCanvas.java:654-664 | getArgumentCount is 0 exactly when the buffer is empty, and never more than the number of characters collected |
| ArgumentFields.EmptyBufferReadsStaleSlot | src/TelnetCanvas.java:635-651 | with nothing collected, getArgument(0) parses the stale character in slot 1 instead of failing |
| ArgumentFields.FieldEndSplits | src/TelnetCanvas.java:646-650 | where the `b` scan stops is the end of the first `;`-separated field, and the remaining fields follow it |
| ArgumentFields.SkipFieldsReachesField | src/TelnetCanvas.java:637-645 | skipping i separators from a field start lands on the start of field i, or fails with IndexOutOfBounds when there is no field i |
| ArgumentFields.ArgumentAtField | src/TelnetCanvas.java:632-652 | when no field is empty, getArgument(i) is parseInt of the i-th `;`-separated field, and fails with IndexOutOfBounds when there are not i+1 fields |
| ArgumentFields.ArgumentCountIsFieldCount | src/TelnetCanvas.java:654-664 | when the parameters do not end in `;`, getArgumentCount is the number of `;`-separated fields |
| Cells.CopyDown | src/TelnetCanvas.java:472-475 | the downward copy loop changes only cells in its range, keeps the length, and runs to its end exactly when every index it touches is inside the buffer |
| Cells.FillUp | src/TelnetCanvas.java:476-479 | the fill loop changes only cells in its range, runs to its end exactly when the range is inside the buffer, and then every cell in it holds the value |
| Cells.PullUp | src/TelnetCanvas.java:499-509 | the pull-up loop changes only cells in its range and keeps the length |
| Cells.Store | src/TelnetCanvas.java:566 | a single store succeeds exactly for an index inside the buffer and then changes that cell only; otherwise nothing changes |
| Cells.NextRowStart | src/TelnetCanvas.java:581-584 | a `for ( ; i % columns != 0; i++ )` loop stops at the first multiple of `columns` at or after its start, less than one row on |
| Cells.DataCursor | src/TelnetCanvas.java:353-370 | BS moves the cursor back one, LF to the next row start, CR to its own row start (for a negative cursor both round toward zero, as Java's `%` does), a visible byte forward one, other bytes not at all |
| Cells.CopyDownShifts | src/TelnetCanvas.java:472-475 | inside the buffer, every cell of the copied range receives the cell `d` below it |
| Cells.PullUpShifts | src/TelnetCanvas.java:499-509 | inside the buffer, each cell below the limit receives the cell `d` above it and every other cell of the range is zeroed |
| Cells.ShiftThenFill | src/TelnetCanvas.java:470-495 | a shift followed by a fill, cell by cell: filled cells hold the value, shifted cells the cell `d` below, all others are unchanged |
| Commands.CursorTarget | src/TelnetCanvas.java:400-468 | with no parameters, every cursor command succeeds |
| Commands.Selector | src/TelnetCanvas.java:536 | `J` and `K` read selector 0 when no parameter arrived |
| Commands.Graphics | src/TelnetCanvas.java:591-594 | with no arguments left, `m` keeps the highlight and completes |
| Commands.Execute | src/TelnetCanvas.java:393-624 | a command keeps the buffer's length; only `s` changes the saved cursor; only `m` the highlight; only `@ L M P J K` write cells; only the cursor commands and `J` move the cursor |
| Commands.GraphicsStep | src/TelnetCanvas.java:593 | one turn of the `m` loop sets the highlight to whether the argument is positive |
| CommandLaws.OneNumber | src/TelnetCanvas.java:632-652 | a parameter string that is one decimal number n gives getArgument(0) = n and no getArgument(1) |
| CommandLaws.TwoNumbers | src/TelnetCanvas.java:632-652 | the parameters `n;m` give getArgument(0) = n and getArgument(1) = m |
| CommandLaws.DefaultMoves | src/TelnetCanvas.java:400-468 | without parameters A, B, C and D move by one row or column, H and f go to the screen's first cell `bound - rows*columns`, and d and G change nothing |
| CommandLaws.CountedMoves | src/TelnetCanvas.java:412-454 | `ESC [ n A/B/C/D` moves exactly n rows up or down or n columns right or left |
| CommandLaws.PositionRowColumn | src/TelnetCanvas.java:400-405 | `ESC [ r ; k H` puts the cursor on row r, column k of the screen, both counted from 1 |
| CommandLaws.PositionNeedsBothArguments | src/TelnetCanvas.java:404 | `ESC [ r H` without a column is abandoned and leaves the cursor where it was |
| CommandLaws.ColumnIsOffByOne | src/TelnetCanvas.java:463-468 | `ESC [ n G` puts the cursor n cells after its row start, one right of column n counted from 1 |
| CommandLaws.RowKeepsColumn | src/TelnetCanvas.java:456-461 | `ESC [ r d` moves the cursor to row r of the screen, counted from 1, and keeps its column |
| CommandLaws.TrailingSeparatorReadsStaleSlot | src/TelnetCanvas.java:632-652 | after a number and a `;`, getArgument(1) parses the slot just past the collected characters, or fails with IndexOutOfBounds when that slot is past the array, instead of reporting no argument |
| CommandLaws.StaleColumnExample | src/TelnetCanvas.java:632-652 | after `ESC [ 1 ; 3 H` the buffer still holds the 3, and `ESC [ 5 ; H` reads it as its column |
| CommandLaws.SaveThenRestore | src/TelnetCanvas.java:527-533 | `u` after `s`, with one other command in between, returns the cursor to where it was saved |
| CommandLaws.RestoreWithoutSave | src/TelnetCanvas.java:531-533 | `u` sets the cursor to the saved value, -1 before any `s` |
| CommandLaws.UnsupportedCommand | src/TelnetCanvas.java:597-615 | `h`, `l`, `p` and every unimplemented letter change nothing |
| CommandLaws.EditDispatch | src/TelnetCanvas.java:470-525 | `@`, `L`, `M` and `P` are carried out by insert-blanks, insert-lines, delete-lines and delete-chars |
| CommandLaws.EditWithArgument | src/TelnetCanvas.java:470-525 | once getArgument(0) = v, each of `@ L M P` does its work with that v |
| CommandLaws.EditNeedsArgument | src/TelnetCanvas.java:470-513 | when getArgument(0) throws, `@ L M P` are abandoned before writing anything, whether or not parameters arrived |
| CommandLaws.InsertBlanksAsWritten | src/TelnetCanvas.java:470-480 | `ESC [ n @` inside a row blanks the n cells at the cursor, keeps cell `cursor+n`, shifts the cells after it right by n up to and including the next row's first cell, and changes nothing else |
| CommandLaws.BlanksInserted | src/TelnetCanvas.java:470-480 | the same, with the next row's start given |
| CommandLaws.InsertLinesAsWritten | src/TelnetCanvas.java:482-495 | `ESC [ n L` zeroes n rows from the cursor's row start, shifts the cells after them down by n rows through cell `bound` inclusive, and changes nothing else |
| CommandLaws.LinesInserted | src/TelnetCanvas.java:482-495 | the same, with the row start and the shift distance given |
| CommandLaws.DeleteLinesAsWritten | src/TelnetCanvas.java:497-510 | `ESC [ n M` moves up only the n rows at the cursor and zeroes every later cell up to the bound; cells outside `[cursor, bound)` are unchanged |
| CommandLaws.DeleteCharsAsWritten | src/TelnetCanvas.java:512-525 | `ESC [ n P` moves left only the n cells at the cursor and zeroes the rest of the row; other cells and the cursor are unchanged |
| CommandLaws.DeleteCharsAtRowStart | src/TelnetCanvas.java:514 | `P` at the first column of a row changes nothing |
| CommandLaws.ClearScreen | src/TelnetCanvas.java:545-551 | `ESC [ 2 J` homes the cursor to the screen's first cell and zeroes exactly the screen's cells |
| CommandLaws.EraseBelow | src/TelnetCanvas.java:552-556 | `ESC [ J` zeroes exactly the cells from the cursor to the bound and keeps the cursor |
| CommandLaws.EraseAbove | src/TelnetCanvas.java:535-545 | `ESC [ 1 J` zeroes exactly the cells from the screen's first cell through the cursor and keeps the cursor |
| CommandLaws.EraseToEndOfLine | src/TelnetCanvas.java:579-585 | `ESC [ K` zeroes exactly the cells from the cursor to the end of its row and keeps the cursor |
| CommandLaws.LineErasedFromCursor | src/TelnetCanvas.java:579-585 | the same for the `K` loop with selector 0 |
| CommandLaws.EraseToCursor | src/TelnetCanvas.java:561-571 | `ESC [ 1 K` zeroes exactly the cells from the start of the cursor's row through the cursor and keeps the cursor |
| CommandLaws.LineErasedToCursor | src/TelnetCanvas.java:564-571 | the same for the `K` code with selector 1 |
| CommandLaws.EraseWholeLine | src/TelnetCanvas.java:561-578 | `ESC [ 2 K` zeroes exactly the cells of the cursor's row and keeps the cursor |
| CommandLaws.LineErasedWhole | src/TelnetCanvas.java:572-578 | the same for the `K` code with selector 2 |
| CommandLaws.LastGraphicsArgumentWins | src/TelnetCanvas.java:589-595 | when every argument parses, `m` leaves the highlight on exactly when the last argument is positive |
| CommandLaws.GraphicsStopsAtFault | src/TelnetCanvas.java:589-595 | the first argument that throws ends `m`, with the highlight that the arguments before it set |
| CommandLaws.SetGraphicsMode | src/TelnetCanvas.java:589-595 | `ESC [ n m` turns the highlight on exactly when n > 0 and changes nothing else |
| DataSink.LastVisible | src/TelnetCanvas.java:859-862 | calcLastVisibleScreen is never negative |
| DataSink.LastVisibleRow | src/TelnetCanvas.java:859-862 | once the bound is a whole number of rows and at least one screen down, the last visible screen starts exactly `rows` rows above it |
| DataSink.LastVisibleMonotone | src/TelnetCanvas.java:859-862 | a larger bound never gives an earlier last screen |
| DataSink.Room | src/TelnetCanvas.java:322-342 | growing or evicting never changes the bound |
| DataSink.RaiseBound | src/TelnetCanvas.java:375 | the bound loop ends at or past the cursor, never lowers the bound, moves it by whole rows, and stops at the first such boundary |
| DataSink.DataStep | src/TelnetCanvas.java:319-387 | only a visible byte can throw; the bound never decreases, and stays on a row boundary when it was on one |
| DataSink.Land | src/TelnetCanvas.java:344-384 | the same, after the growth step |
| DataSink.GrowthKeepsContents | src/TelnetCanvas.java:322-330 | growth keeps the old cells as a prefix, adds `rows*columns*16` zeroed cells, and keeps cursor and scroll position |
| DataSink.EvictionKeepsNewerHalf | src/TelnetCanvas.java:331-341 | eviction moves the newer half to the front, zeroes the rest, pulls the cursor back by the half, and leaves bound and scroll position unchanged |
| DataSink.PrintableStored | src/TelnetCanvas.java:319-370 | whenever the buffer has room or can grow, a visible byte is stored at the old cursor and the cursor moves on by exactly one; no other old cell changes and any cells added by growth are zero; with room and no growth the cells are exactly the old ones with the byte stored |
| DataSink.ControlIgnored | src/TelnetCanvas.java:319-372 | whenever the buffer has room or can grow, the bell, the other control bytes and the negative bytes change no old cell and do not move the cursor; any cells added by growth are zero |
| DataSink.LineFeedAndReturn | src/TelnetCanvas.java:319-363 | whenever the buffer has room or can grow, LF moves a non-negative cursor to the start of the next row and CR to the start of its own row; neither changes an old cell, and with room neither changes any cell |
| DataSink.DataRun | src/TelnetCanvas.java:248-251 | processData of each byte in turn, stopping at the first that throws; the bound never decreases |
| DataSink.DataRunSplits | src/TelnetCanvas.java:248-251 | a run that does not throw can be split anywhere: the second part continues from the screen the first left |
| DataSink.DataRunStops | src/TelnetCanvas.java:248-251 | once a byte throws, the bytes after it change nothing |
| DataSink.TextWritten | src/TelnetCanvas.java:365-370 | visible bytes with room after them are written in order from the cursor, no other cell changes, and the cursor moves on by their number |
| DataSink.LineFeedWithRoom | src/TelnetCanvas.java:357-363 | LF with room after the cursor throws nothing, changes no cell, and moves the cursor to the start of the next row |
| DataSink.LineOfText | src/TelnetCanvas.java:357-370 | a line of text shorter than a row, written from a row start and ended by LF, leaves the text in that row, no other cell changed, and the cursor at the start of the next row |
| DataSink.HelloLine | src/TelnetCanvas.java:357-370 | "Hello" and LF from cell 0 leave H, e, l, l, o in cells 0 to 4, every other cell as it was, and the cursor at column 0 of row 1 |
| DataSink.BoundFollowsCursor | src/TelnetCanvas.java:374-375 | after a data byte the bound has not decreased, covers the cursor, and has moved by whole rows; a throwing store leaves it unchanged |
| DataSink.ScrollFollowsInput | src/TelnetCanvas.java:377-384 | new data changes `scrollY` only when it was on the last screen and that screen moved, and then moves it to the new last screen (cast to `short`, the identity below 32768 rows) |
| DataSink.ScrollStaysAboveBottom | src/TelnetCanvas.java:344-384 | processData never moves `scrollY` past calcLastVisibleScreen |
| DataSink.ScrollStepInRange | src/TelnetCanvas.java:719-751 | a scroll-lock step keeps `scrollY` in `[0, calcLastVisibleScreen]`, and moves it by exactly the step when it does not reach an end |
| Parser.NulInvisible | src/TelnetCanvas.java:259 | NUL bytes anywhere in the stream do not affect the recogniser's state |
| Parser.StaysInParams | src/TelnetCanvas.java:261-277 | parameter bytes, those below 64, keep the recogniser collecting |
| Parser.Introducer | src/TelnetCanvas.java:288-308 | `ESC [` takes the recogniser from NORMAL to PARAMS |
| Parser.FinalByte | src/TelnetCanvas.java:278-285 | a byte of 64 or more ends the parameters and returns to NORMAL |
| Parser.CompleteSequence | src/TelnetCanvas.java:256-314 | a complete `ESC [ parameters final` returns the recogniser to NORMAL |
| Parser.PlainTextStaysNormal | src/TelnetCanvas.java:303-312 | in NORMAL, bytes other than NUL and ESC are each data and leave the recogniser in NORMAL |
| Parser.Appended | src/TelnetCanvas.java:264-277 | after a parameter byte the count still fits in the argument array |
| Parser.AppendExtends | src/TelnetCanvas.java:264-277 | a parameter byte is added after the collected ones, which are kept; the array doubles exactly when it was full |
| Parser.AppendWraps | src/TelnetCanvas.java:266 | at count 65535 the count wraps and the byte becomes the new count |
| Parser.AppendAll | src/TelnetCanvas.java:264-277 | any run of parameter bytes keeps the count inside the array |
| Parser.AppendAllCollects | src/TelnetCanvas.java:261-277 | a run of fewer than 65535 parameter bytes leaves exactly those bytes, as chars, after the ones already collected |
| Terminal.Canvas.constructor | src/TelnetCanvas.java:95-124 | setup: four zeroed screens, cursor 0, bound one screen, no saved cursor, no scroll, a two-slot empty argument buffer, NORMAL, no highlight, scroll lock off |
| Terminal.Canvas.Reset | src/TelnetCanvas.java:153-161 | a fresh buffer of four zeroed screens, cursor at 0, bound one screen down, saved cursor -1, scroll at 0; the invariant holds |
| Terminal.Canvas.SetScrolling | src/TelnetCanvas.java:178-181 | sets the scroll-lock flag and nothing else |
| Terminal.Canvas.LastVisibleScreen | src/TelnetCanvas.java:859-862 | calcLastVisibleScreen, and the first cell of the last screen is `rows*columns` before the bound |
| Terminal.Canvas.GetArgument | src/TelnetCanvas.java:632-652 | the loops compute getArgument's specification |
| Terminal.Canvas.SkipSeparators | src/TelnetCanvas.java:637-645 | the outer loop computes its specification |
| Terminal.Canvas.NextSeparator | src/TelnetCanvas.java:639-643 | the inner loop computes its specification |
| Terminal.Canvas.GetArgumentCount | src/TelnetCanvas.java:654-664 | the loop counts the `;` before the last collected character, plus one |
| Terminal.Canvas.ShiftDown | src/TelnetCanvas.java:472-475 | the downward copy loop on the buffer array |
| Terminal.Canvas.Fill | src/TelnetCanvas.java:476-479 | the fill loop on the buffer array |
| Terminal.Canvas.FillToRowEnd | src/TelnetCanvas.java:581-584 | the fill loop that stops at a row start |
| Terminal.Canvas.PullUpTo | src/TelnetCanvas.java:499-509 | the pull-up loop on the buffer array |
| Terminal.Canvas.PullUpToRowEnd | src/TelnetCanvas.java:514-524 | the pull-up loop that stops at a row start |
| Terminal.Canvas.StoreCell | src/TelnetCanvas.java:566 | one store into the buffer array, or none when the index is outside it |
| Terminal.Canvas.ProcessCommand | src/TelnetCanvas.java:393-624 | the cells, cursor, saved cursor and highlight become Execute's; bound, scroll, state and argument buffer are untouched; the invariant holds |
| Terminal.Canvas.MoveCursor | src/TelnetCanvas.java:400-468 | the cursor takes its target, or stays when an argument throws |
| Terminal.Canvas.Target | src/TelnetCanvas.java:400-468 | the cursor target of each cursor command |
| Terminal.Canvas.RelativeTarget | src/TelnetCanvas.java:412-454 | the target of A, B, C and D |
| Terminal.Canvas.PositionTarget | src/TelnetCanvas.java:400-410 | the target of H and f |
| Terminal.Canvas.InsertBlanksCommand | src/TelnetCanvas.java:470-480 | the two `@` loops on the buffer array |
| Terminal.Canvas.InsertLinesCommand | src/TelnetCanvas.java:482-495 | the two `L` loops on the buffer array |
| Terminal.Canvas.DeleteLinesCommand | src/TelnetCanvas.java:497-510 | the `M` loop on the buffer array |
| Terminal.Canvas.DeleteCharsCommand | src/TelnetCanvas.java:512-525 | the `P` loop on the buffer array |
| Terminal.Canvas.EraseDisplayCommand | src/TelnetCanvas.java:535-559 | the three `J` selectors |
| Terminal.Canvas.EraseLineCommand | src/TelnetCanvas.java:561-587 | the three `K` selectors |
| Terminal.Canvas.GraphicsCommand | src/TelnetCanvas.java:589-595 | `m` sets the highlight as its specification says, and changes nothing else |
| Terminal.Canvas.GraphicsLoop | src/TelnetCanvas.java:590-594 | the `m` loop computes its specification |
| Terminal.Canvas.ProcessData | src/TelnetCanvas.java:319-387 | the cells, cursor, bound and scroll become processData's specification; the invariant holds |
| Terminal.Canvas.Place | src/TelnetCanvas.java:344-384 | processData after the growth step |
| Terminal.Canvas.Advance | src/TelnetCanvas.java:347-372 | the `switch` moves the cursor, stores a visible byte at the old cursor, and throws exactly when that index is outside the buffer |
| Terminal.Canvas.MakeRoom | src/TelnetCanvas.java:322-342 | growth or eviction as specified; the invariant holds |
| Terminal.Canvas.DropOlderHalf | src/TelnetCanvas.java:335-337 | the two eviction loops |
| Terminal.Canvas.RaiseBoundTo | src/TelnetCanvas.java:375 | the bound loop |
| Terminal.Canvas.Receive | src/TelnetCanvas.java:256-314 | the state follows the recogniser. NUL, ESC and `[` change nothing else. A parameter byte is appended. A final byte runs processCommand, then zeroes the count. An ESC not followed by `[` sends 27 and then the byte to processData. In NORMAL a byte goes to processData. The invariant holds |
| Terminal.Canvas.ReceiveAll | src/TelnetCanvas.java:248-251 | receive(byte[]) feeds the bytes to the recogniser in order; from NORMAL, plain text changes the screen exactly as processData of each byte in turn, and throws exactly when that run throws |
| Terminal.Canvas.DispatchFinal | src/TelnetCanvas.java:278-285 | a final byte runs the command, clears the count and returns to NORMAL, whatever the command did |
| Terminal.Canvas.PassThroughByte | src/TelnetCanvas.java:295-301 | back to NORMAL, then 27 and the byte as data |
| Terminal.Canvas.CollectByte | src/TelnetCanvas.java:264-277 | a parameter byte increments the count, doubles the array when full, and stores the byte's char at the count |
| Terminal.Canvas.ScrollKey | src/TelnetCanvas.java:719-831 | under scroll lock, DOWN and UP move `scrollY` by one row (pressed) or half a screen (repeated), clamped at calcLastVisibleScreen and 0; without scroll lock nothing changes |

## Left out

- Drawing: `paint`, `repaint`, the font, its metrics and the insets. `setup`'s computation of `rows` and `columns` from the screen and font size is left out too; the constructor takes them as parameters.
- Output: `send`, `setOutputStream`, and the branches of `keyPressed` and `keyRepeated` that send bytes to the host. These are LEFT, RIGHT and FIRE, DOWN and UP without scroll lock, and the numeric keys.
- The bell's vibration and all `System.err` logging, which the model treats as doing nothing.
- The `OutOfMemoryError` on growth is not modelled as such: a parameter `allocFails` says whether the allocation fails. When ESC passes through, both `processData` calls share that one parameter.
- The getters (`getRows`, `getColumns`, `getTerminalType`, `isScrolling`), `scrollX`, which nothing but `reset` sets, and `receive(char[])`, which is `receive(byte[])` after a `(byte)` cast of each char.
- Terminal.Canvas.constructor: requires `rows` and `columns` to be positive. Java computes them as `short` from the screen and font size and could make them 0.
- The model computes with unbounded integers, so Java's 32-bit `int` wrap-around is left out. Without a parameter the cursor, the bound and `scrollY` move by a cell or a row at a time, and would need more than two thousand million cells to wrap. A single parameter near the `int` limits wraps at once, and the members below then differ from Java.
- Commands.CursorTarget: does not wrap `columns * getArgument(0)` (A, B), `(rows - getArgument(0)) * columns` and `columns - getArgument(1)` (H, f, d), or `cursor + getArgument(0)` and `cursor - getArgument(0)` (C, D, G). For such a parameter Java's cursor is the model's cursor wrapped to 32 bits.
- Commands.InsertLinesOf: does not wrap `getArgument(0) * columns`. With 2 columns and the cursor at 0, `ESC [ 1073741824 L` makes Java's product -2147483648, and Java's first `buffer[i-arg]` throws before any cell is written. The model's product is 2147483648, and it zeroes cells from the row start before its store runs off the buffer.
- Commands.DeleteLinesOf: does not wrap `getArgument(0) * columns`, nor `cursor + arg` and `i + arg` in its loop.
- Commands.InsertBlanksOf and Commands.DeleteCharsOf: do not wrap `cursor + getArgument(0)`, `i - arg` or `i + arg`.
- DataSink.DataRun: one `allocFails` serves the whole run, so a run in which one growth fails and a later one succeeds is not covered.
- Parser.AppendAllCollects: stated only for runs that do not wrap the count at 65535. Parser.AppendWraps states what happens at the wrap.
- src/CustomFont.java and src/BlueTerm.java are not part of this model.
- Concurrency: the reader thread that calls `receive` and the display thread that paints are not modelled.
