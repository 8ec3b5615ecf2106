/**
 * What processCommand does for the sequences a host actually sends, stated
 * against `Commands.Execute`, including the places where the code does
 * something other than its comment says.
 */
module CommandLaws {
  import opened JavaNum
  import opened Faults
  import opened Arguments
  import opened ArgumentFields
  import opened Cells
  import opened Commands

  /** The parameter characters collected for the current sequence. */
  function Params(args: seq<Char16>): seq<Char16>
    requires WellShaped(args)
  {
    args[1..args[0] as int + 1]
  }

  lemma NotSeparator(str: seq<Char16>)
    requires Numeral(str)
    ensures SEMICOLON !in str
  {
  }

  /** A parameter string that is one decimal number `n` gives getArgument(0) == n
      and no second argument. */
  lemma OneNumber(args: seq<Char16>, n: nat)
    requires WellShaped(args) && n <= INT_MAX
    requires Params(args) == Decimal(n)
    ensures ArgumentAt(args, 0) == Ok(n)
    ensures ArgumentAt(args, 1) == Err(NoSuchArgument)
  {
    NotSeparator(Decimal(n));
    FieldsWithoutSeparator(Decimal(n));
    ArgumentAtField(args, 0);
    ArgumentAtField(args, 1);
    ParseDecimal(n);
  }

  /** "n;m" gives getArgument(0) == n and getArgument(1) == m. */
  lemma TwoNumbers(args: seq<Char16>, n: nat, m: nat)
    requires WellShaped(args) && n <= INT_MAX && m <= INT_MAX
    requires Params(args) == Decimal(n) + [SEMICOLON] + Decimal(m)
    ensures ArgumentAt(args, 0) == Ok(n)
    ensures ArgumentAt(args, 1) == Ok(m)
  {
    NotSeparator(Decimal(n));
    NotSeparator(Decimal(m));
    FieldsOfJoin(Decimal(n), Decimal(m));
    FieldsWithoutSeparator(Decimal(m));
    var fs := Fields(Params(args));
    assert fs == [Decimal(n), Decimal(m)];
    ArgumentAtField(args, 0);
    ArgumentAtField(args, 1);
    ParseDecimal(n);
    ParseDecimal(m);
  }

  // ---------------------------------------------------------------------------
  // Cursor commands
  // ---------------------------------------------------------------------------

  /** Without parameters, A B C D move one row or column, H and f go to the
      screen's first cell (`bound - rows*columns`), and d and G do nothing. */
  lemma DefaultMoves(p: Pane, args: seq<Char16>, bound: int, rows: int, columns: int)
    requires WellShaped(args) && columns > 0 && args[0] == 0
    ensures Execute('A' as int as JByte, p, args, bound, rows, columns) == Effect(p.(cursor := p.cursor - columns), Done)
    ensures Execute('B' as int as JByte, p, args, bound, rows, columns) == Effect(p.(cursor := p.cursor + columns), Done)
    ensures Execute('C' as int as JByte, p, args, bound, rows, columns) == Effect(p.(cursor := p.cursor + 1), Done)
    ensures Execute('D' as int as JByte, p, args, bound, rows, columns) == Effect(p.(cursor := p.cursor - 1), Done)
    ensures Execute('H' as int as JByte, p, args, bound, rows, columns) == Effect(p.(cursor := bound - rows * columns), Done)
    ensures Execute('f' as int as JByte, p, args, bound, rows, columns) == Effect(p.(cursor := bound - rows * columns), Done)
    ensures Execute('d' as int as JByte, p, args, bound, rows, columns) == Effect(p, Done)
    ensures Execute('G' as int as JByte, p, args, bound, rows, columns) == Effect(p, Done)
  {
  }

  /** `ESC [ n A` moves up n rows and `ESC [ n C` right n columns. */
  lemma CountedMoves(p: Pane, args: seq<Char16>, n: nat, bound: int, rows: int, columns: int)
    requires WellShaped(args) && columns > 0 && n <= INT_MAX
    requires Params(args) == Decimal(n)
    ensures Execute('A' as int as JByte, p, args, bound, rows, columns) == Effect(p.(cursor := p.cursor - n * columns), Done)
    ensures Execute('B' as int as JByte, p, args, bound, rows, columns) == Effect(p.(cursor := p.cursor + n * columns), Done)
    ensures Execute('C' as int as JByte, p, args, bound, rows, columns) == Effect(p.(cursor := p.cursor + n), Done)
    ensures Execute('D' as int as JByte, p, args, bound, rows, columns) == Effect(p.(cursor := p.cursor - n), Done)
  {
    OneNumber(args, n);
    assert |Decimal(n)| >= 1;
  }

  /** `ESC [ r ; k H` puts the cursor on row r, column k of the screen (both
      counted from 1), whose first cell is `bound - rows*columns`. */
  lemma PositionRowColumn(p: Pane, args: seq<Char16>, r: nat, k: nat, bound: int, rows: int, columns: int)
    requires WellShaped(args) && columns > 0 && r <= INT_MAX && k <= INT_MAX
    requires Params(args) == Decimal(r) + [SEMICOLON] + Decimal(k)
    ensures Execute('H' as int as JByte, p, args, bound, rows, columns)
            == Effect(p.(cursor := bound - rows * columns + (r - 1) * columns + (k - 1)), Done)
  {
    TwoNumbers(args, r, k);
    assert |Decimal(r)| >= 1;
    assert (rows - r) * columns == rows * columns - (r - 1) * columns - columns;
  }

  /** `ESC [ r H` with a row but no column is abandoned: getArgument(1) throws,
      and the cursor stays where it was. */
  lemma PositionNeedsBothArguments(p: Pane, args: seq<Char16>, r: nat, bound: int, rows: int, columns: int)
    requires WellShaped(args) && columns > 0 && r <= INT_MAX
    requires Params(args) == Decimal(r)
    ensures Execute('H' as int as JByte, p, args, bound, rows, columns) == Effect(p, Aborted(NoSuchArgument))
  {
    OneNumber(args, r);
    assert |Decimal(r)| >= 1;
  }

  /** A parameter string ending in `;` has an empty last field, but
      getArgument(1) does not report it missing: the field takes the slot just
      past the logical end, left over from an earlier, longer sequence (or the
      read runs off the array). */
  lemma TrailingSeparatorReadsStaleSlot(s: seq<Char16>, n: nat)
    requires WellShaped(s)
    requires Params(s) == Decimal(n) + [SEMICOLON]
    ensures var c := s[0] as int + 1;
            ArgumentAt(s, 1) == if c < |s| then ParseInt(s[c..c + 1]) else Err(IndexOutOfRange)
  {
    var c := s[0] as int + 1;
    NotSeparator(Decimal(n));
    assert s[c - 1] == SEMICOLON;
    assert forall k :: 1 <= k < c - 1 ==> s[k] == Decimal(n)[k - 1];
    assert FieldEnd(s, c, 1) == c - 1;
    assert SkipFields(s, c, 1, 1) == Ok(c);
  }

  /** After `ESC [ 1 ; 3 H` the host sends `ESC [ 5 ; H`: the empty column
      field reads the 3 still in the buffer. */
  lemma StaleColumnExample()
    ensures ArgumentAt([2, 53, 59, 51], 1) == Ok(3)
  {
    var s: seq<Char16> := [2, 53, 59, 51];
    assert Decimal(5) == [53];
    TrailingSeparatorReadsStaleSlot(s, 5);
    assert s[3..4] == Decimal(3);
    ParseDecimal(3);
  }

  /** `ESC [ n G` lands n cells after the row start, one to the right of
      column n counted from 1: the source subtracts no 1 here, unlike H. */
  lemma ColumnIsOffByOne(p: Pane, args: seq<Char16>, n: nat, bound: int, rows: int, columns: int)
    requires WellShaped(args) && columns > 0 && n <= INT_MAX && p.cursor >= 0
    requires Params(args) == Decimal(n)
    ensures var e := Execute('G' as int as JByte, p, args, bound, rows, columns);
            e.outcome == Done && e.pane.cursor == p.cursor - p.cursor % columns + n
  {
    OneNumber(args, n);
    assert |Decimal(n)| >= 1;
  }

  /** `ESC [ r d` moves to row r of the screen (counted from 1) and keeps the
      cursor's column. */
  lemma RowKeepsColumn(p: Pane, args: seq<Char16>, r: nat, bound: int, rows: int, columns: int)
    requires WellShaped(args) && columns > 0 && r <= INT_MAX && p.cursor >= 0
    requires Params(args) == Decimal(r)
    ensures Execute('d' as int as JByte, p, args, bound, rows, columns)
            == Effect(p.(cursor := bound - rows * columns + (r - 1) * columns + p.cursor % columns), Done)
  {
    OneNumber(args, r);
    assert |Decimal(r)| >= 1;
    assert (rows - r + 1) * columns == rows * columns - (r - 1) * columns;
  }

  /** Restoring right after saving returns to the same cursor, and any single
      command between them other than `s` keeps the saved position. */
  lemma SaveThenRestore(p: Pane, cmd: JByte, args: seq<Char16>, bound: int, rows: int, columns: int)
    requires WellShaped(args) && columns > 0 && !Is(cmd, 's')
    ensures var saved := Execute('s' as int as JByte, p, args, bound, rows, columns).pane;
            var between := Execute(cmd, saved, args, bound, rows, columns).pane;
            Execute('u' as int as JByte, between, args, bound, rows, columns)
              == Effect(between.(cursor := p.cursor), Done)
  {
  }

  /** Restore before any save moves the cursor to the initial saved value. */
  lemma RestoreWithoutSave(p: Pane, args: seq<Char16>, bound: int, rows: int, columns: int)
    requires WellShaped(args) && columns > 0
    ensures Execute('u' as int as JByte, p, args, bound, rows, columns) == Effect(p.(cursor := p.saved), Done)
  {
  }

  /** h, l, p and every letter the terminal does not implement only log. */
  lemma UnsupportedCommand(cmd: JByte, p: Pane, args: seq<Char16>, bound: int, rows: int, columns: int)
    requires WellShaped(args) && columns > 0
    requires !Writes(cmd) && !Moves(cmd) && !Is(cmd, 's') && !Is(cmd, 'm')
    ensures Execute(cmd, p, args, bound, rows, columns) == Effect(p, Done)
  {
  }

  // ---------------------------------------------------------------------------
  // Editing commands
  // ---------------------------------------------------------------------------

  /** Which function carries out each editing letter. */
  lemma EditDispatch(p: Pane, args: seq<Char16>, bound: int, rows: int, columns: int)
    requires WellShaped(args) && columns > 0
    ensures Execute('@' as int as JByte, p, args, bound, rows, columns) == InsertBlanks(p, args, columns)
    ensures Execute('L' as int as JByte, p, args, bound, rows, columns) == InsertLines(p, args, bound, columns)
    ensures Execute('M' as int as JByte, p, args, bound, rows, columns) == DeleteLines(p, args, bound, columns)
    ensures Execute('P' as int as JByte, p, args, bound, rows, columns) == DeleteChars(p, args, columns)
  {
  }

  /** With getArgument(0) = v, each editing letter does its `v` form. */
  lemma EditWithArgument(p: Pane, args: seq<Char16>, v: int, bound: int, rows: int, columns: int)
    requires WellShaped(args) && columns > 0 && ArgumentAt(args, 0) == Ok(v)
    ensures Execute('@' as int as JByte, p, args, bound, rows, columns) == InsertBlanksOf(p, v, columns)
    ensures Execute('L' as int as JByte, p, args, bound, rows, columns) == InsertLinesOf(p, v, bound, columns)
    ensures Execute('M' as int as JByte, p, args, bound, rows, columns) == DeleteLinesOf(p, v, bound, columns)
    ensures Execute('P' as int as JByte, p, args, bound, rows, columns) == DeleteCharsOf(p, v, columns)
  {
    EditDispatch(p, args, bound, rows, columns);
  }

  /** @ L M P read getArgument(0) before touching anything: when it throws,
      the pane is as before. */
  lemma EditNeedsArgument(cmd: JByte, p: Pane, args: seq<Char16>, bound: int, rows: int, columns: int)
    requires WellShaped(args) && columns > 0
    requires Is(cmd, '@') || Is(cmd, 'L') || Is(cmd, 'M') || Is(cmd, 'P')
    requires ArgumentAt(args, 0).Err?
    ensures Execute(cmd, p, args, bound, rows, columns) == Effect(p, Aborted(ArgumentAt(args, 0).fault))
  {
  }

  /** `ESC [ n @` inside a row: the n cells from the cursor become blanks, the
      cell at `cursor + n` keeps its old value instead of moving, and the cells
      after it up to AND INCLUDING the first cell of the next row receive the
      cell n before them. Nothing else changes. */
  lemma InsertBlanksAsWritten(p: Pane, v: int, columns: int)
    requires columns > 0
    requires 0 <= p.cursor && 0 < v && p.cursor + v < p.cursor + columns - p.cursor % columns < |p.cells|
    ensures var e := InsertBlanksOf(p, v, columns);
            var next := p.cursor + columns - p.cursor % columns;
            e.outcome == Done && e.pane.cursor == p.cursor &&
            forall k :: 0 <= k < |p.cells| ==>
              e.pane.cells[k] == if p.cursor <= k < p.cursor + v then SPACE
                                 else if p.cursor + v < k <= next then p.cells[k - v]
                                 else p.cells[k]
  {
    assert JRem(p.cursor, columns) == p.cursor % columns;
    BlanksInserted(p, v, columns, p.cursor + columns - p.cursor % columns);
  }

  /** `@` with argument `v`, where `next` is the first cell of the next row. */
  lemma BlanksInserted(p: Pane, v: int, columns: int, next: int)
    requires columns > 0 && next == p.cursor + columns - JRem(p.cursor, columns)
    requires 0 <= p.cursor && 0 < v && p.cursor + v < next < |p.cells|
    ensures var e := InsertBlanksOf(p, v, columns);
            e.outcome == Done && e.pane.cursor == p.cursor &&
            forall k :: 0 <= k < |p.cells| ==>
              e.pane.cells[k] == if p.cursor <= k < p.cursor + v then SPACE
                                 else if p.cursor + v < k <= next then p.cells[k - v]
                                 else p.cells[k]
  {
    var shifted := CopyDown(p.cells, next, p.cursor + v + 1, v);
    var filled := FillUp(shifted.cells, p.cursor, p.cursor + v, SPACE);
    assert InsertBlanksOf(p, v, columns) == AfterTwo(p, shifted, filled);
    ShiftedThenFilled(p, shifted, filled, next, p.cursor + v + 1, v, p.cursor, p.cursor + v, SPACE);
  }

  /** A shift down followed by a fill, as a command's effect on the pane. */
  lemma ShiftedThenFilled(p: Pane, shifted: Run, filled: Run, hi: int, lo: int, d: int, from: int, to: int, v: JByte)
    requires d > 0 && 0 <= lo - d && hi < |p.cells| && 0 <= from && to <= |p.cells|
    requires shifted == CopyDown(p.cells, hi, lo, d) && filled == FillUp(shifted.cells, from, to, v)
    ensures var e := AfterTwo(p, shifted, filled);
            e.outcome == Done && e.pane.cursor == p.cursor &&
            forall k :: 0 <= k < |p.cells| ==>
              e.pane.cells[k] == if from <= k < to then v else if lo <= k <= hi then p.cells[k - d] else p.cells[k]
  {
    ShiftThenFill(p.cells, hi, lo, d, from, to, v);
  }

  /** `ESC [ n L` with the screen's rows inside the buffer: from the cursor's row
      start `o`, the cells `[o, o + n*columns)` are zeroed and the cells
      `[o + n*columns, bound]` receive the cell n rows above. The range includes
      cell `bound`, one past the last row. */
  lemma InsertLinesAsWritten(p: Pane, v: int, bound: int, columns: int)
    requires columns > 0
    requires 0 <= p.cursor && 0 < v && bound < |p.cells|
    requires p.cursor - p.cursor % columns + v * columns <= bound + 1
    ensures var e := InsertLinesOf(p, v, bound, columns);
            var o := p.cursor - p.cursor % columns;
            var n := v * columns;
            e.outcome == Done && e.pane.cursor == p.cursor &&
            forall k :: 0 <= k < |p.cells| ==>
              e.pane.cells[k] == if o <= k < o + n then 0
                                 else if o + n <= k <= bound then p.cells[k - n]
                                 else p.cells[k]
  {
    assert JRem(p.cursor, columns) == p.cursor % columns;
    var o := p.cursor - p.cursor % columns;
    var n := v * columns;
    assert 0 <= o by { RowStartInRange(p.cursor, columns); }
    assert 0 < n by { MonotoneProduct(v, 1, columns); }
    LinesInserted(p, v, bound, columns, o, n);
  }

  /** `L` with argument `v`, where `o` is the cursor's row start and `n` the
      number of cells in `v` rows. */
  lemma LinesInserted(p: Pane, v: int, bound: int, columns: int, o: int, n: int)
    requires columns > 0 && o == p.cursor - JRem(p.cursor, columns) && n == v * columns
    requires 0 <= o && 0 < n && o + n <= bound + 1 && bound < |p.cells|
    ensures var e := InsertLinesOf(p, v, bound, columns);
            e.outcome == Done && e.pane.cursor == p.cursor &&
            forall k :: 0 <= k < |p.cells| ==>
              e.pane.cells[k] == if o <= k < o + n then 0
                                 else if o + n <= k <= bound then p.cells[k - n]
                                 else p.cells[k]
  {
    var shifted := CopyDown(p.cells, bound, o + n, n);
    var filled := FillUp(shifted.cells, o, o + n, 0);
    assert InsertLinesOf(p, v, bound, columns) == AfterTwo(p, shifted, filled);
    ShiftedThenFilled(p, shifted, filled, bound, o + n, n, o, o + n, 0);
  }

  /** `ESC [ n M` from a cursor at least n rows above the bound: only the n
      rows at the cursor are pulled up from n rows further on, and every cell
      from `cursor + n*columns` to the bound is zeroed rather than moved up. */
  lemma DeleteLinesAsWritten(p: Pane, v: int, bound: int, columns: int)
    requires columns > 0
    requires 0 <= p.cursor && 0 < v && p.cursor + 2 * (v * columns) <= |p.cells| && bound <= |p.cells|
    ensures var e := DeleteLinesOf(p, v, bound, columns);
            var n := v * columns;
            e.outcome == Done &&
            (forall k :: p.cursor <= k < bound ==>
               e.pane.cells[k] == if k < p.cursor + n then p.cells[k + n] else 0) &&
            (forall k :: 0 <= k < |p.cells| && !(p.cursor <= k < bound) ==> e.pane.cells[k] == p.cells[k])
  {
    MonotoneProduct(columns, 1, v);
    PullUpShifts(p.cells, p.cursor, bound, p.cursor + v * columns, v * columns);
  }

  /** `ESC [ n P` within the buffer: up to the end of the cursor's row, the n
      cells from the cursor take the cells n further on and the rest are zeroed
      instead of moved left. */
  lemma DeleteCharsAsWritten(p: Pane, v: int, columns: int)
    requires columns > 0
    requires 0 <= p.cursor && 0 <= v && p.cursor + 2 * v <= |p.cells|
    requires p.cursor + columns - p.cursor % columns <= |p.cells|
    ensures var e := DeleteCharsOf(p, v, columns);
            var end := NextRowStart(p.cursor, columns);
            e.outcome == Done && e.pane.cursor == p.cursor &&
            forall k :: 0 <= k < |p.cells| ==>
              e.pane.cells[k] == if p.cursor <= k < end && k < p.cursor + v then p.cells[k + v]
                                 else if p.cursor <= k < end then 0
                                 else p.cells[k]
  {
    var end := NextRowStart(p.cursor, columns);
    assert end <= |p.cells| by { RowEndBound(p.cursor, columns); }
    PullUpShifts(p.cells, p.cursor, end, p.cursor + v, v);
  }

  lemma RowEndBound(x: int, columns: int)
    requires columns > 0 && x >= 0
    ensures NextRowStart(x, columns) <= x + columns - x % columns
  {
    var e := x + columns - x % columns;
    DivModOf(e, columns, x / columns + 1, 0);
    JRemZero(e, columns);
  }

  /** At the first column `P` deletes nothing: its loop condition `i % columns
      != 0` is false on entry. */
  lemma DeleteCharsAtRowStart(p: Pane, args: seq<Char16>, bound: int, rows: int, columns: int)
    requires WellShaped(args) && columns > 0 && ArgumentAt(args, 0).Ok?
    requires p.cursor % columns == 0
    ensures Execute('P' as int as JByte, p, args, bound, rows, columns) == Effect(p, Done)
  {
    JRemZero(p.cursor, columns);
    assert NextRowStart(p.cursor, columns) == p.cursor;
  }

  /** `ESC [ 2 J` with the screen inside the buffer homes the cursor and zeroes
      exactly the screen's cells. */
  lemma ClearScreen(p: Pane, args: seq<Char16>, bound: int, rows: int, columns: int)
    requires WellShaped(args) && columns > 0
    requires Params(args) == Decimal(2)
    requires 0 <= bound - rows * columns <= bound <= |p.cells|
    ensures var e := Execute('J' as int as JByte, p, args, bound, rows, columns);
            e.outcome == Done && e.pane.cursor == bound - rows * columns &&
            (forall k :: bound - rows * columns <= k < bound ==> e.pane.cells[k] == 0) &&
            (forall k :: 0 <= k < |p.cells| && !(bound - rows * columns <= k < bound) ==> e.pane.cells[k] == p.cells[k])
  {
    OneNumber(args, 2);
  }

  /** `ESC [ J` zeroes from the cursor to the bound and keeps the cursor. */
  lemma EraseBelow(p: Pane, args: seq<Char16>, bound: int, rows: int, columns: int)
    requires WellShaped(args) && columns > 0 && args[0] == 0
    requires 0 <= p.cursor <= bound <= |p.cells|
    ensures var e := Execute('J' as int as JByte, p, args, bound, rows, columns);
            e.outcome == Done && e.pane.cursor == p.cursor &&
            (forall k :: p.cursor <= k < bound ==> e.pane.cells[k] == 0) &&
            (forall k :: 0 <= k < |p.cells| && !(p.cursor <= k < bound) ==> e.pane.cells[k] == p.cells[k])
  {
  }

  /** `ESC [ K` zeroes from the cursor to the end of its row. */
  lemma EraseToEndOfLine(p: Pane, args: seq<Char16>, bound: int, rows: int, columns: int)
    requires WellShaped(args) && columns > 0 && args[0] == 0
    requires 0 <= p.cursor && p.cursor - p.cursor % columns + columns <= |p.cells|
    ensures var e := Execute('K' as int as JByte, p, args, bound, rows, columns);
            var end := p.cursor - p.cursor % columns + columns;
            e.outcome == Done && e.pane.cursor == p.cursor &&
            (forall k :: p.cursor <= k < end ==> e.pane.cells[k] == 0) &&
            (forall k :: 0 <= k < |p.cells| && !(p.cursor <= k < end) ==> e.pane.cells[k] == p.cells[k])
  {
    assert Execute('K' as int as JByte, p, args, bound, rows, columns) == EraseLineOf(p, 0, columns);
    LineErasedFromCursor(p, columns);
  }

  /** `ESC [ 1 J` zeroes from the screen's first cell through the cursor and
      keeps the cursor. */
  lemma EraseAbove(p: Pane, args: seq<Char16>, bound: int, rows: int, columns: int)
    requires WellShaped(args) && columns > 0
    requires Params(args) == Decimal(1)
    requires 0 <= bound - rows * columns && p.cursor < |p.cells|
    ensures var e := Execute('J' as int as JByte, p, args, bound, rows, columns);
            var top := bound - rows * columns;
            e.outcome == Done && e.pane.cursor == p.cursor &&
            (forall k :: top <= k <= p.cursor ==> e.pane.cells[k] == 0) &&
            (forall k :: 0 <= k < |p.cells| && !(top <= k <= p.cursor) ==> e.pane.cells[k] == p.cells[k])
  {
    OneNumber(args, 1);
    assert Execute('J' as int as JByte, p, args, bound, rows, columns) == EraseDisplayOf(p, 1, bound, rows, columns);
  }

  /** `ESC [ 1 K` zeroes the cursor's row from its start through the cursor. */
  lemma EraseToCursor(p: Pane, args: seq<Char16>, bound: int, rows: int, columns: int)
    requires WellShaped(args) && columns > 0
    requires Params(args) == Decimal(1)
    requires 0 <= p.cursor < |p.cells|
    ensures var e := Execute('K' as int as JByte, p, args, bound, rows, columns);
            var start := p.cursor - p.cursor % columns;
            e.outcome == Done && e.pane.cursor == p.cursor &&
            (forall k :: 0 <= k && start <= k <= p.cursor ==> e.pane.cells[k] == 0) &&
            (forall k :: 0 <= k < |p.cells| && !(start <= k <= p.cursor) ==> e.pane.cells[k] == p.cells[k])
  {
    OneNumber(args, 1);
    assert |Decimal(1)| >= 1;
    EraseLineSelected(p, args, 1, bound, rows, columns);
    LineErasedToCursor(p, columns);
  }

  /** `K` dispatches on its selector. */
  lemma EraseLineSelected(p: Pane, args: seq<Char16>, v: int, bound: int, rows: int, columns: int)
    requires WellShaped(args) && columns > 0 && args[0] > 0 && ArgumentAt(args, 0) == Ok(v)
    ensures Execute('K' as int as JByte, p, args, bound, rows, columns) == EraseLineOf(p, v, columns)
  {
  }

  lemma LineErasedToCursor(p: Pane, columns: int)
    requires columns > 0
    requires 0 <= p.cursor < |p.cells|
    ensures var e := EraseLineOf(p, 1, columns);
            var start := p.cursor - p.cursor % columns;
            e.outcome == Done && e.pane.cursor == p.cursor &&
            (forall k :: start <= k <= p.cursor ==> e.pane.cells[k] == 0) &&
            (forall k :: 0 <= k < |p.cells| && !(start <= k <= p.cursor) ==> e.pane.cells[k] == p.cells[k])
  {
    var start := p.cursor - p.cursor % columns;
    RowStartInRange(p.cursor, columns);
    var first := Store(p.cells, p.cursor, 0);
    var rest := FillUp(first.cells, start, p.cursor, 0);
    assert EraseLineOf(p, 1, columns) == AfterTwo(p, first, rest);
  }

  /** `ESC [ 2 K` zeroes the whole of the cursor's row and keeps the cursor. */
  lemma EraseWholeLine(p: Pane, args: seq<Char16>, bound: int, rows: int, columns: int)
    requires WellShaped(args) && columns > 0
    requires Params(args) == Decimal(2)
    requires 0 <= p.cursor && p.cursor - p.cursor % columns + columns <= |p.cells|
    ensures var e := Execute('K' as int as JByte, p, args, bound, rows, columns);
            var start := p.cursor - p.cursor % columns;
            e.outcome == Done && e.pane.cursor == p.cursor &&
            (forall k :: 0 <= k && start <= k < start + columns ==> e.pane.cells[k] == 0) &&
            (forall k :: 0 <= k < |p.cells| && !(start <= k < start + columns) ==> e.pane.cells[k] == p.cells[k])
  {
    OneNumber(args, 2);
    assert Execute('K' as int as JByte, p, args, bound, rows, columns) == EraseLineOf(p, 2, columns);
    LineErasedWhole(p, columns);
  }

  lemma LineErasedWhole(p: Pane, columns: int)
    requires columns > 0
    requires 0 <= p.cursor && p.cursor - p.cursor % columns + columns <= |p.cells|
    ensures var e := EraseLineOf(p, 2, columns);
            var start := p.cursor - p.cursor % columns;
            e.outcome == Done && e.pane.cursor == p.cursor &&
            (forall k :: 0 <= k && start <= k < start + columns ==> e.pane.cells[k] == 0) &&
            (forall k :: 0 <= k < |p.cells| && !(start <= k < start + columns) ==> e.pane.cells[k] == p.cells[k])
  {
    var start := p.cursor - p.cursor % columns;
    RowStartInRange(p.cursor, columns);
    var q := p.cursor / columns;
    assert start == columns * q;
    MultipleMod(columns, q);
    RowEndAfter(start, columns);
    var first := Store(p.cells, start, 0);
    var rest := FillUp(first.cells, start + 1, start + columns, 0);
    assert EraseLineOf(p, 2, columns) == AfterTwo(p, first, rest);
  }

  lemma LineErasedFromCursor(p: Pane, columns: int)
    requires columns > 0
    requires 0 <= p.cursor && p.cursor - p.cursor % columns + columns <= |p.cells|
    ensures var e := EraseLineOf(p, 0, columns);
            var end := p.cursor - p.cursor % columns + columns;
            e.outcome == Done && e.pane.cursor == p.cursor &&
            (forall k :: p.cursor <= k < end ==> e.pane.cells[k] == 0) &&
            (forall k :: 0 <= k < |p.cells| && !(p.cursor <= k < end) ==> e.pane.cells[k] == p.cells[k])
  {
    var end := p.cursor - p.cursor % columns + columns;
    RowEndAfter(p.cursor, columns);
    var first := Store(p.cells, p.cursor, 0);
    var rest := FillUp(first.cells, p.cursor + 1, end, 0);
    assert EraseLineOf(p, 0, columns) == AfterTwo(p, first, rest);
  }

  /** The first row start after `x` is the end of `x`'s row. */
  lemma RowEndAfter(x: int, columns: int)
    requires columns > 0 && x >= 0
    ensures NextRowStart(x + 1, columns) == x - x % columns + columns
  {
    var q := x / columns;
    var end := x - x % columns + columns;
    assert end == columns * (q + 1);
    var r := NextRowStart(x + 1, columns);
    var t := r / columns;
    assert r == columns * t;
    assert r - end == columns * (t - (q + 1));
    SmallMultiple(columns, t - (q + 1));
  }

  // ---------------------------------------------------------------------------
  // Graphics mode
  // ---------------------------------------------------------------------------

  /** When every argument parses, `m` leaves the highlight on exactly when the
      LAST argument is positive; earlier arguments are overwritten. */
  lemma {:induction false} LastGraphicsArgumentWins(args: seq<Char16>, from: nat, count: nat, h: bool)
    requires WellShaped(args) && from < count
    requires forall i :: from <= i < count ==> ArgumentAt(args, i).Ok?
    ensures Graphics(args, from, count, h) == (ArgumentAt(args, count - 1).value > 0, Done)
    decreases count - from
  {
    var v := ArgumentAt(args, from).value;
    if from + 1 < count {
      LastGraphicsArgumentWins(args, from + 1, count, v > 0);
    }
  }

  /** The first argument that fails ends `m` with the highlight of the
      arguments before it. */
  lemma GraphicsStopsAtFault(args: seq<Char16>, from: nat, count: nat, h: bool, j: nat)
    requires WellShaped(args) && from <= j < count
    requires forall i :: from <= i < j ==> ArgumentAt(args, i).Ok?
    requires ArgumentAt(args, j).Err?
    ensures Graphics(args, from, count, h).1 == Aborted(ArgumentAt(args, j).fault)
    ensures Graphics(args, from, count, h).0 == if j == from then h else ArgumentAt(args, j - 1).value > 0
  {
    GraphicsFaultOutcome(args, from, count, h, j);
    GraphicsFaultHighlight(args, from, count, h, j);
  }

  lemma {:induction false} GraphicsFaultOutcome(args: seq<Char16>, from: nat, count: nat, h: bool, j: nat)
    requires WellShaped(args) && from <= j < count
    requires forall i :: from <= i < j ==> ArgumentAt(args, i).Ok?
    requires ArgumentAt(args, j).Err?
    ensures Graphics(args, from, count, h).1 == Aborted(ArgumentAt(args, j).fault)
    decreases count - from
  {
    if from < j {
      GraphicsFaultOutcome(args, from + 1, count, ArgumentAt(args, from).value > 0, j);
    }
  }

  lemma {:induction false} GraphicsFaultHighlight(args: seq<Char16>, from: nat, count: nat, h: bool, j: nat)
    requires WellShaped(args) && from <= j < count
    requires forall i :: from <= i < j ==> ArgumentAt(args, i).Ok?
    requires ArgumentAt(args, j).Err?
    ensures Graphics(args, from, count, h).0 == if j == from then h else ArgumentAt(args, j - 1).value > 0
    decreases count - from
  {
    if from < j {
      GraphicsFaultHighlight(args, from + 1, count, ArgumentAt(args, from).value > 0, j);
    }
  }

  /** `ESC [ n m` with one number sets the highlight to n > 0. */
  lemma SetGraphicsMode(p: Pane, args: seq<Char16>, n: nat, bound: int, rows: int, columns: int)
    requires WellShaped(args) && columns > 0 && n <= INT_MAX
    requires Params(args) == Decimal(n)
    ensures Execute('m' as int as JByte, p, args, bound, rows, columns) == Effect(p.(highlight := n > 0), Done)
  {
    OneNumber(args, n);
    NotSeparator(Decimal(n));
    FieldsWithoutSeparator(Decimal(n));
    assert args[args[0]] == Decimal(n)[|Decimal(n)| - 1];
    ArgumentCountIsFieldCount(args);
  }
}
