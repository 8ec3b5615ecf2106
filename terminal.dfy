/**
 * TelnetCanvas: the terminal's state and the operations that change it in
 * place. Each method is proved against the specification functions of the
 * Arguments, Commands, DataSink and Parser modules.
 */
module Terminal {
  import opened JavaNum
  import opened Faults
  import opened Arguments
  import opened Cells
  import opened Commands
  import opened DataSink
  import opened Parser

  class Canvas {
    const rows: int
    const columns: int
    /** The screen buffer: rows of `columns` cells, one after another. */
    var buffer: array<JByte>
    var cursor: int
    var savedCursor: int
    /** The outer bound: the furthest row boundary the cursor has reached. */
    var bound: int
    /** The first row shown when scrolled back. */
    var scrollY: int
    var state: ParserState
    /** Slot 0 holds the number of parameter chars collected; they follow it. */
    var argbuf: array<Char16>
    var highlight: bool
    var scrolling: bool

    /** What every public operation keeps: a positive screen size, a bound on
        a row boundary at least one screen down, a scroll position not past
        the last screen, and an argument buffer whose count fits in it. */
    ghost predicate Valid()
      reads this, argbuf
    {
      rows > 0 && columns > 0 && bound >= 0 &&
      rows * columns <= bound && bound % columns == 0 &&
      scrollY <= LastVisible(bound, rows, columns) &&
      WellShaped(argbuf[..])
    }

    /** The fields a data byte may change. */
    function ScreenState(): Screen
      reads this, buffer
    {
      Screen(buffer[..], cursor, bound, scrollY)
    }

    /** The fields a control sequence may change. */
    function PaneState(): Pane
      reads this, buffer
    {
      Pane(buffer[..], cursor, savedCursor, highlight)
    }

    /** The fields no control sequence changes. */
    twostate predicate CommandFrame()
      reads this
    {
      buffer == old(buffer) && argbuf == old(argbuf) && bound == old(bound) &&
      scrollY == old(scrollY) && state == old(state) && scrolling == old(scrolling)
    }

    /** setup(), without the font metrics: reset, scroll lock off, a two-slot
        empty argument buffer, the normal state, no highlight. */
    constructor (rows: int, columns: int)
      requires rows > 0 && columns > 0
      ensures Valid()
      ensures this.rows == rows && this.columns == columns
      ensures fresh(buffer) && buffer[..] == Zeros(rows * columns * 4)
      ensures cursor == 0 && bound == rows * columns && savedCursor == -1 && scrollY == 0
      ensures fresh(argbuf) && argbuf[..] == [0, 0]
      ensures state == Normal && !highlight && !scrolling
    {
      this.rows := rows;
      this.columns := columns;
      buffer := new JByte[0];
      argbuf := new Char16[2](_ => 0);
      state := Normal;
      new;
      Reset();
      scrolling := false;
      highlight := false;
    }

    /** reset(): a fresh buffer of four screens, the cursor at its start, the
        bound one screen down, no saved cursor, no scrolling back. */
    method Reset()
      requires rows > 0 && columns > 0 && WellShaped(argbuf[..])
      modifies this
      ensures Valid()
      ensures fresh(buffer) && buffer[..] == Zeros(rows * columns * 4)
      ensures cursor == 0 && bound == rows * columns && savedCursor == -1 && scrollY == 0
      ensures argbuf == old(argbuf) && state == old(state)
      ensures highlight == old(highlight) && scrolling == old(scrolling)
    {
      buffer := new JByte[rows * columns * 4](_ => 0);
      cursor := 0;
      bound := rows * columns;
      savedCursor := -1;
      scrollY := 0;
      MultipleMod(columns, rows);
    }

    method SetScrolling(on: bool)
      modifies this
      ensures scrolling == on
      ensures buffer == old(buffer) && argbuf == old(argbuf) && cursor == old(cursor) && bound == old(bound)
      ensures scrollY == old(scrollY) && state == old(state) && savedCursor == old(savedCursor)
      ensures highlight == old(highlight)
    {
      scrolling := on;
    }

    /** calcLastVisibleScreen(). */
    function LastVisibleScreen(): (r: int)
      reads this
      requires rows >= 0 && columns > 0 && rows * columns <= bound && bound % columns == 0
      ensures r == LastVisible(bound, rows, columns)
      ensures r * columns == bound - rows * columns
    {
      LastVisibleRow(bound, rows, columns);
      if bound / columns - rows > 0 then bound / columns - rows else 0
    }

    // -------------------------------------------------------------------------
    // The argument buffer
    // -------------------------------------------------------------------------

    /** getArgument(index). */
    method GetArgument(index: nat) returns (r: Result<int>)
      requires WellShaped(argbuf[..])
      ensures r == ArgumentAt(argbuf[..], index)
    {
      var c := argbuf[0] as int + 1;
      var start := SkipSeparators(c, index);
      if start.Err? {
        return Err(start.fault);
      }
      var a := start.value;
      var b := a + 1;
      while b < c && argbuf[b] != SEMICOLON
        invariant a + 1 <= b
        invariant b <= c || b == a + 1
        invariant FieldEnd(argbuf[..], c, b) == FieldEnd(argbuf[..], c, a + 1)
        decreases c - b
      {
        b := b + 1;
      }
      if b > argbuf.Length {
        return Err(IndexOutOfRange);
      }
      r := ParseInt(argbuf[a..b]);
    }

    /** The outer loop of getArgument: past `count` separators from slot 1. */
    method SkipSeparators(c: int, count: nat) returns (r: Result<nat>)
      requires WellShaped(argbuf[..]) && c <= argbuf.Length
      ensures r == SkipFields(argbuf[..], c, 1, count)
    {
      var a := 1;
      var i := 0;
      while i < count
        invariant 0 <= i <= count && 1 <= a <= argbuf.Length
        invariant SkipFields(argbuf[..], c, a, count - i) == SkipFields(argbuf[..], c, 1, count)
      {
        var p := NextSeparator(c, a);
        if p.Err? {
          return Err(p.fault);
        }
        a := p.value + 1;
        i := i + 1;
      }
      return Ok(a);
    }

    /** The inner loop of getArgument: `while ( argbuf[a] != ';' )`, giving up
        once `a` reaches `c`. */
    method NextSeparator(c: int, start: nat) returns (r: Result<nat>)
      requires c <= argbuf.Length && start <= argbuf.Length
      ensures r == FindSeparator(argbuf[..], c, start)
    {
      var a := start;
      while true
        invariant start <= a <= argbuf.Length
        invariant FindSeparator(argbuf[..], c, a) == FindSeparator(argbuf[..], c, start)
        decreases argbuf.Length - a
      {
        if a >= argbuf.Length {
          return Err(IndexOutOfRange);
        }
        if argbuf[a] == SEMICOLON {
          return Ok(a);
        }
        a := a + 1;
        if a >= c {
          return Err(NoSuchArgument);
        }
      }
    }

    /** getArgumentCount(). */
    method GetArgumentCount() returns (n: nat)
      requires WellShaped(argbuf[..])
      ensures n == ArgumentCount(argbuf[..])
    {
      if argbuf[0] == 0 {
        return 0;
      }
      n := 1;
      var i := 1;
      while i < argbuf[0] as int
        invariant 1 <= i <= argbuf[0] as int
        invariant n == 1 + multiset(argbuf[1..i])[SEMICOLON]
      {
        assert argbuf[1..i + 1] == argbuf[1..i] + [argbuf[i]];
        if argbuf[i] == SEMICOLON {
          n := n + 1;
        }
        i := i + 1;
      }
    }

    // -------------------------------------------------------------------------
    // The cell loops of processCommand
    // -------------------------------------------------------------------------

    /** `for ( i = hi; i >= lo; i-- ) buffer[i] = buffer[i-d];` */
    method ShiftDown(hi: int, lo: int, d: int) returns (completed: bool)
      modifies buffer
      ensures var r := CopyDown(old(buffer[..]), hi, lo, d);
              buffer[..] == r.cells && completed == r.completed
    {
      var i := hi;
      while i >= lo
        invariant CopyDown(buffer[..], i, lo, d) == CopyDown(old(buffer[..]), hi, lo, d)
        decreases i - lo
      {
        if !(0 <= i - d < buffer.Length) || !(0 <= i < buffer.Length) {
          return false;
        }
        buffer[i] := buffer[i - d];
        i := i - 1;
      }
      return true;
    }

    /** `for ( i = lo; i < hi; i++ ) buffer[i] = v;` */
    method Fill(lo: int, hi: int, v: JByte) returns (completed: bool)
      modifies buffer
      ensures var r := FillUp(old(buffer[..]), lo, hi, v);
              buffer[..] == r.cells && completed == r.completed
    {
      var i := lo;
      while i < hi
        invariant FillUp(buffer[..], i, hi, v) == FillUp(old(buffer[..]), lo, hi, v)
        decreases hi - i
      {
        if !(0 <= i < buffer.Length) {
          return false;
        }
        buffer[i] := v;
        i := i + 1;
      }
      return true;
    }

    /** `for ( i = lo; i % columns != 0; i++ ) buffer[i] = 0;` */
    method FillToRowEnd(lo: int) returns (completed: bool)
      requires columns > 0
      modifies buffer
      ensures var r := FillUp(old(buffer[..]), lo, NextRowStart(lo, columns), 0);
              buffer[..] == r.cells && completed == r.completed
    {
      ghost var end := NextRowStart(lo, columns);
      JRemZero(end, columns);
      var i := lo;
      while JRem(i, columns) != 0
        invariant lo <= i <= end
        invariant FillUp(buffer[..], i, end, 0) == FillUp(old(buffer[..]), lo, end, 0)
        decreases end - i
      {
        if !(0 <= i < buffer.Length) {
          return false;
        }
        buffer[i] := 0;
        i := i + 1;
      }
      return true;
    }

    /** `for ( i = lo; i < hi; i++ ) if ( i < limit ) buffer[i] = buffer[i+d]; else buffer[i] = 0;` */
    method PullUpTo(lo: int, hi: int, limit: int, d: int) returns (completed: bool)
      modifies buffer
      ensures var r := PullUp(old(buffer[..]), lo, hi, limit, d);
              buffer[..] == r.cells && completed == r.completed
    {
      var i := lo;
      while i < hi
        invariant PullUp(buffer[..], i, hi, limit, d) == PullUp(old(buffer[..]), lo, hi, limit, d)
        decreases hi - i
      {
        if i < limit {
          if !(0 <= i + d < buffer.Length) || !(0 <= i < buffer.Length) {
            return false;
          }
          buffer[i] := buffer[i + d];
        } else {
          if !(0 <= i < buffer.Length) {
            return false;
          }
          buffer[i] := 0;
        }
        i := i + 1;
      }
      return true;
    }

    /** The same loop ending at the row end: `for ( i = lo; i % columns != 0; i++ )`. */
    method PullUpToRowEnd(lo: int, limit: int, d: int) returns (completed: bool)
      requires columns > 0
      modifies buffer
      ensures var r := PullUp(old(buffer[..]), lo, NextRowStart(lo, columns), limit, d);
              buffer[..] == r.cells && completed == r.completed
    {
      ghost var end := NextRowStart(lo, columns);
      JRemZero(end, columns);
      var i := lo;
      while JRem(i, columns) != 0
        invariant lo <= i <= end
        invariant PullUp(buffer[..], i, end, limit, d) == PullUp(old(buffer[..]), lo, end, limit, d)
        decreases end - i
      {
        if i < limit {
          if !(0 <= i + d < buffer.Length) || !(0 <= i < buffer.Length) {
            return false;
          }
          buffer[i] := buffer[i + d];
        } else {
          if !(0 <= i < buffer.Length) {
            return false;
          }
          buffer[i] := 0;
        }
        i := i + 1;
      }
      return true;
    }

    /** A single `buffer[k] = v;`. */
    method StoreCell(k: int, v: JByte) returns (completed: bool)
      modifies buffer
      ensures var r := Store(old(buffer[..]), k, v);
              buffer[..] == r.cells && completed == r.completed
    {
      if !(0 <= k < buffer.Length) {
        return false;
      }
      buffer[k] := v;
      return true;
    }

    // -------------------------------------------------------------------------
    // processCommand
    // -------------------------------------------------------------------------

    /** processCommand(cmd): every throwable is caught, so the outcome is a
        value; only the pane changes. */
    method ProcessCommand(cmd: JByte) returns (outcome: Outcome)
      requires Valid()
      modifies this, buffer
      ensures CommandFrame() && Valid()
      ensures var e := Execute(cmd, old(PaneState()), argbuf[..], bound, rows, columns);
              PaneState() == e.pane && outcome == e.outcome
    {
      if Moves(cmd) && !Is(cmd, 'J') {
        outcome := MoveCursor(cmd);
      } else if Is(cmd, '@') || Is(cmd, 'L') || Is(cmd, 'M') || Is(cmd, 'P') {
        var arg := GetArgument(0);
        if arg.Err? {
          outcome := Aborted(arg.fault);
        } else if Is(cmd, '@') {
          outcome := InsertBlanksCommand(arg.value);
        } else if Is(cmd, 'L') {
          outcome := InsertLinesCommand(arg.value);
        } else if Is(cmd, 'M') {
          outcome := DeleteLinesCommand(arg.value);
        } else {
          outcome := DeleteCharsCommand(arg.value);
        }
      } else if Is(cmd, 's') {
        savedCursor := cursor;
        outcome := Done;
      } else if Is(cmd, 'J') || Is(cmd, 'K') {
        var arg := Ok(0);
        if argbuf[0] > 0 {
          arg := GetArgument(0);
        }
        if arg.Err? {
          outcome := Aborted(arg.fault);
        } else if Is(cmd, 'J') {
          outcome := EraseDisplayCommand(arg.value);
        } else {
          outcome := EraseLineCommand(arg.value);
        }
      } else if Is(cmd, 'm') {
        outcome := GraphicsCommand();
      } else {
        // h, l, p and unsupported letters are only logged
        outcome := Done;
      }
    }

    /** H f A B C D d G u. */
    method MoveCursor(cmd: JByte) returns (outcome: Outcome)
      requires WellShaped(argbuf[..]) && columns > 0
      modifies this
      ensures CommandFrame()
      ensures savedCursor == old(savedCursor) && highlight == old(highlight)
      ensures var t := CursorTarget(cmd, old(cursor), savedCursor, argbuf[..], bound, rows, columns);
              (t.Ok? ==> cursor == t.value && outcome == Done) &&
              (t.Err? ==> cursor == old(cursor) && outcome == Aborted(t.fault))
    {
      var t := Target(cmd);
      if t.Err? {
        return Aborted(t.fault);
      }
      cursor := t.value;
      return Done;
    }

    /** The value a cursor command assigns to the cursor, or the throwable
        that stops it first. */
    method Target(cmd: JByte) returns (t: Result<int>)
      requires WellShaped(argbuf[..]) && columns > 0
      ensures t == CursorTarget(cmd, cursor, savedCursor, argbuf[..], bound, rows, columns)
    {
      if Is(cmd, 'H') || Is(cmd, 'f') {
        t := PositionTarget();
      } else if Is(cmd, 'A') {
        t := RelativeTarget(-columns);
      } else if Is(cmd, 'B') {
        t := RelativeTarget(columns);
      } else if Is(cmd, 'C') {
        t := RelativeTarget(1);
      } else if Is(cmd, 'D') {
        t := RelativeTarget(-1);
      } else if Is(cmd, 'd') || Is(cmd, 'G') {
        t := Ok(cursor);
        if argbuf[0] > 0 {
          var n := GetArgument(0);
          if n.Err? {
            t := Err(n.fault);
          } else if Is(cmd, 'd') {
            t := Ok(bound - (rows - n.value + 1) * columns + JRem(cursor, columns));
          } else {
            t := Ok(cursor - JRem(cursor, columns) + n.value);
          }
        }
      } else if Is(cmd, 'u') {
        t := Ok(savedCursor);
      } else {
        t := Ok(cursor);
      }
    }

    /** `A` `B` `C` `D`: one `unit`, or `unit` times the first argument. */
    method RelativeTarget(unit: int) returns (t: Result<int>)
      requires WellShaped(argbuf[..])
      ensures t == Relative(argbuf[..], cursor, unit)
    {
      if argbuf[0] == 0 {
        t := Ok(cursor + unit);
      } else {
        var n := GetArgument(0);
        t := if n.Err? then Err(n.fault) else Ok(cursor + unit * n.value);
      }
    }

    /** `H` and `f`: row and column from the first two arguments, counted
        from 1 at the screen's top-left cell. */
    method PositionTarget() returns (t: Result<int>)
      requires WellShaped(argbuf[..]) && columns > 0
      ensures t == Position(argbuf[..], bound, rows, columns)
    {
      if argbuf[0] > 0 {
        var row := GetArgument(0);
        if row.Err? {
          return Err(row.fault);
        }
        var column := GetArgument(1);
        if column.Err? {
          return Err(column.fault);
        }
        t := Ok(bound - 1 - (rows - row.value) * columns - (columns - column.value));
      } else {
        t := Ok(bound - rows * columns);
      }
    }

    /** `@` with argument `v`. */
    method InsertBlanksCommand(v: int) returns (outcome: Outcome)
      requires columns > 0
      modifies buffer
      ensures var e := InsertBlanksOf(old(PaneState()), v, columns);
              PaneState() == e.pane && outcome == e.outcome
    {
      var ok := ShiftDown(cursor + columns - JRem(cursor, columns), cursor + v + 1, v);
      if ok {
        ok := Fill(cursor, cursor + v, SPACE);
      }
      outcome := if ok then Done else Aborted(IndexOutOfRange);
    }

    /** `L` with argument `v`. */
    method InsertLinesCommand(v: int) returns (outcome: Outcome)
      requires columns > 0
      modifies buffer
      ensures var e := InsertLinesOf(old(PaneState()), v, bound, columns);
              PaneState() == e.pane && outcome == e.outcome
    {
      var n := v * columns;
      var origin := cursor - JRem(cursor, columns);
      var ok := ShiftDown(bound, origin + n, n);
      if ok {
        ok := Fill(origin, origin + n, 0);
      }
      outcome := if ok then Done else Aborted(IndexOutOfRange);
    }

    /** `M` with argument `v`. */
    method DeleteLinesCommand(v: int) returns (outcome: Outcome)
      modifies buffer
      ensures var e := DeleteLinesOf(old(PaneState()), v, bound, columns);
              PaneState() == e.pane && outcome == e.outcome
    {
      var n := v * columns;
      var ok := PullUpTo(cursor, bound, cursor + n, n);
      outcome := if ok then Done else Aborted(IndexOutOfRange);
    }

    /** `P` with argument `v`. */
    method DeleteCharsCommand(v: int) returns (outcome: Outcome)
      requires columns > 0
      modifies buffer
      ensures var e := DeleteCharsOf(old(PaneState()), v, columns);
              PaneState() == e.pane && outcome == e.outcome
    {
      var ok := PullUpToRowEnd(cursor, cursor + v, v);
      outcome := if ok then Done else Aborted(IndexOutOfRange);
    }

    /** `J` with selector `arg`. */
    method EraseDisplayCommand(arg: int) returns (outcome: Outcome)
      modifies this, buffer
      ensures CommandFrame()
      ensures var e := EraseDisplayOf(old(PaneState()), arg, bound, rows, columns);
              PaneState() == e.pane && outcome == e.outcome
    {
      var ok;
      if arg == 1 {
        ok := Fill(bound - rows * columns, cursor + 1, 0);
      } else if arg == 2 {
        cursor := bound - rows * columns;
        ok := Fill(cursor, bound, 0);
      } else {
        ok := Fill(cursor, bound, 0);
      }
      outcome := if ok then Done else Aborted(IndexOutOfRange);
    }

    /** `K` with selector `arg`. */
    method EraseLineCommand(arg: int) returns (outcome: Outcome)
      requires columns > 0
      modifies buffer
      ensures var e := EraseLineOf(old(PaneState()), arg, columns);
              PaneState() == e.pane && outcome == e.outcome
    {
      var start := cursor - JRem(cursor, columns);
      var ok;
      if arg == 1 {
        ok := StoreCell(cursor, 0);
        if ok {
          ok := Fill(start, cursor, 0);
        }
      } else if arg == 2 {
        ok := StoreCell(start, 0);
        if ok {
          ok := FillToRowEnd(start + 1);
        }
      } else {
        ok := StoreCell(cursor, 0);
        if ok {
          ok := FillToRowEnd(cursor + 1);
        }
      }
      outcome := if ok then Done else Aborted(IndexOutOfRange);
    }

    /** `m`: the highlight follows each argument in turn. */
    method GraphicsCommand() returns (outcome: Outcome)
      requires WellShaped(argbuf[..])
      modifies this
      ensures CommandFrame()
      ensures cursor == old(cursor) && savedCursor == old(savedCursor)
      ensures var g := Graphics(argbuf[..], 0, ArgumentCount(argbuf[..]), old(highlight));
              highlight == g.0 && outcome == g.1
    {
      var h, o := GraphicsLoop();
      highlight, outcome := h, o;
    }

    /** The loop of `m`, on the highlight as a local. */
    method GraphicsLoop() returns (h: bool, outcome: Outcome)
      requires WellShaped(argbuf[..])
      ensures (h, outcome) == Graphics(argbuf[..], 0, ArgumentCount(argbuf[..]), highlight)
    {
      ghost var args := argbuf[..];
      var argc := GetArgumentCount();
      h := highlight;
      var i := 0;
      while i < argc
        invariant 0 <= i <= argc
        invariant Graphics(args, i, argc, h) == Graphics(args, 0, argc, highlight)
      {
        var a := GetArgument(i);
        if a.Err? {
          return h, Aborted(a.fault);
        }
        GraphicsStep(args, i, argc, h, a.value);
        h := a.value > 0;
        i := i + 1;
      }
      return h, Done;
    }

    // -------------------------------------------------------------------------
    // processData
    // -------------------------------------------------------------------------

    /** processData(b). A store outside the buffer throws out of processData
        (`fault`), after the cursor has moved on and before the bound and the
        scroll position are updated. `allocFails` says whether the growth's
        `new byte[...]` runs out of memory. */
    method ProcessData(b: JByte, allocFails: bool) returns (fault: bool)
      requires Valid()
      modifies this, buffer
      ensures Valid()
      ensures var r := DataStep(old(ScreenState()), b, rows, columns, allocFails);
              ScreenState() == r.screen && fault == r.fault
      ensures savedCursor == old(savedCursor) && highlight == old(highlight)
      ensures state == old(state) && argbuf == old(argbuf) && scrolling == old(scrolling)
      ensures buffer == old(buffer) || fresh(buffer)
    {
      ScrollStaysAboveBottom(ScreenState(), b, rows, columns, allocFails);
      MakeRoom(allocFails);
      fault := Place(b);
    }

    /** processData(b) after the growth step. */
    method Place(b: JByte) returns (fault: bool)
      requires rows > 0 && columns > 0 && bound >= 0 && rows * columns <= bound && bound % columns == 0
      modifies this, buffer
      ensures var r := Land(old(ScreenState()), b, rows, columns);
              ScreenState() == r.screen && fault == r.fault
      ensures savedCursor == old(savedCursor) && highlight == old(highlight) && buffer == old(buffer)
      ensures state == old(state) && argbuf == old(argbuf) && scrolling == old(scrolling)
    {
      var offsetY := LastVisibleScreen();
      var thrown := Advance(b);
      if thrown {
        return true;
      }
      RaiseBoundTo();
      SumOfMultiples(old(bound), bound - old(bound), columns);
      var newY := LastVisibleScreen();
      if newY != offsetY && offsetY == scrollY {
        scrollY := ShortCast(newY);
      }
      return false;
    }

    /** The `switch ( b )` of processData: BS, LF and CR move the cursor; a
        visible byte is stored at the cursor, which moves on first. */
    method Advance(b: JByte) returns (thrown: bool)
      requires columns > 0
      modifies this, buffer
      ensures bound == old(bound) && scrollY == old(scrollY) && buffer == old(buffer)
      ensures cursor == DataCursor(old(cursor), b, columns)
      ensures thrown == (b > 31 && !(0 <= old(cursor) < buffer.Length))
      ensures buffer[..] == if b > 31 && !thrown then old(buffer[..])[old(cursor) := b] else old(buffer[..])
      ensures savedCursor == old(savedCursor) && highlight == old(highlight)
      ensures state == old(state) && argbuf == old(argbuf) && scrolling == old(scrolling)
    {
      thrown := false;
      if b == 8 {
        cursor := cursor - 1;
      } else if b == 10 {
        cursor := cursor + columns - JRem(cursor, columns);
      } else if b == 13 {
        cursor := cursor - JRem(cursor, columns);
      } else if b > 31 {
        var at := cursor;
        cursor := cursor + 1;
        if !(0 <= at < buffer.Length) {
          return true;
        }
        buffer[at] := b;
      }
    }

    /** The first step of processData: sixteen more screens when fewer than
        `columns` cells remain after the cursor, or, when that allocation
        fails, the older half of the buffer dropped. */
    method MakeRoom(allocFails: bool)
      requires Valid()
      modifies this, buffer
      ensures Valid()
      ensures ScreenState() == Room(old(ScreenState()), rows, columns, allocFails)
      ensures savedCursor == old(savedCursor) && highlight == old(highlight)
      ensures state == old(state) && argbuf == old(argbuf) && scrolling == old(scrolling)
      ensures buffer == old(buffer) || fresh(buffer)
    {
      if cursor + columns > buffer.Length {
        if !allocFails {
          var tmp := new JByte[buffer.Length + rows * columns * 16](_ => 0);
          forall k | 0 <= k < buffer.Length {
            tmp[k] := buffer[k];
          }
          buffer := tmp;
          assert buffer[..] == old(buffer[..]) + Zeros(rows * columns * 16);
        } else {
          var half := buffer.Length / 2;
          DropOlderHalf();
          var oldLast := LastVisibleScreen();
          cursor := cursor - half;
          if scrollY == oldLast {
            scrollY := LastVisibleScreen();
          }
        }
      }
    }

    /** The two eviction loops: the upper half moves down, the rest is zeroed. */
    method DropOlderHalf()
      modifies buffer
      ensures buffer[..] == Evicted(old(buffer[..]))
    {
      var half := buffer.Length / 2;
      var i := 0;
      while i < half
        invariant 0 <= i <= half
        invariant forall k :: 0 <= k < i ==> buffer[k] == old(buffer[k + half])
        invariant forall k :: i <= k < buffer.Length ==> buffer[k] == old(buffer[k])
      {
        buffer[i] := buffer[i + half];
        i := i + 1;
      }
      i := half;
      while i < buffer.Length
        invariant half <= i <= buffer.Length
        invariant forall k :: 0 <= k < half ==> buffer[k] == old(buffer[k + half])
        invariant forall k :: half <= k < i ==> buffer[k] == 0
      {
        buffer[i] := 0;
        i := i + 1;
      }
      assert buffer[..] == Evicted(old(buffer[..]));
    }

    /** `while ( cursor > bound ) bound += columns;` */
    method RaiseBoundTo()
      requires columns > 0 && bound >= 0
      modifies this
      ensures bound == RaiseBound(old(bound), cursor, columns)
      ensures cursor == old(cursor) && scrollY == old(scrollY) && buffer == old(buffer)
      ensures savedCursor == old(savedCursor) && highlight == old(highlight)
      ensures state == old(state) && argbuf == old(argbuf) && scrolling == old(scrolling)
    {
      while cursor > bound
        invariant old(bound) <= bound
        invariant RaiseBound(bound, cursor, columns) == RaiseBound(old(bound), cursor, columns)
        invariant cursor == old(cursor) && scrollY == old(scrollY) && buffer == old(buffer)
        invariant savedCursor == old(savedCursor) && highlight == old(highlight)
        invariant state == old(state) && argbuf == old(argbuf) && scrolling == old(scrolling)
        decreases cursor - bound
      {
        bound := bound + columns;
      }
    }

    // -------------------------------------------------------------------------
    // receive
    // -------------------------------------------------------------------------

    /** Nothing a data byte or a control sequence acts on has changed. */
    twostate predicate Untouched()
      reads this, buffer
    {
      buffer == old(buffer) && buffer[..] == old(buffer[..]) &&
      cursor == old(cursor) && savedCursor == old(savedCursor) && bound == old(bound) &&
      scrollY == old(scrollY) && highlight == old(highlight) && scrolling == old(scrolling)
    }

    /** receive(b): the recogniser's step, with what the step does to the
        terminal. A store outside the buffer throws out of processData and out
        of receive (`fault`). */
    method Receive(b: JByte, allocFails: bool) returns (fault: bool)
      requires Valid()
      modifies this, buffer, argbuf
      ensures Valid()
      ensures state == Transition(old(state), b).0
      ensures argbuf == old(argbuf) || fresh(argbuf)
      ensures buffer == old(buffer) || fresh(buffer)
      ensures var act := Transition(old(state), b).1;
              (act == Ignore || act == Enter || act == Open) ==>
                !fault && Untouched() && argbuf[..] == old(argbuf[..])
      ensures Transition(old(state), b).1 == Collect ==>
                !fault && Untouched() && argbuf[..] == Appended(old(argbuf[..]), b)
      ensures Transition(old(state), b).1 == Dispatch ==>
                var e := Execute(b, old(PaneState()), old(argbuf[..]), old(bound), rows, columns);
                !fault && PaneState() == e.pane && bound == old(bound) && scrollY == old(scrollY) &&
                scrolling == old(scrolling) && argbuf[..] == old(argbuf[..])[0 := 0]
      ensures Transition(old(state), b).1 == Data ==>
                var r := DataStep(old(ScreenState()), b, rows, columns, allocFails);
                ScreenState() == r.screen && fault == r.fault && argbuf[..] == old(argbuf[..]) &&
                savedCursor == old(savedCursor) && highlight == old(highlight) && scrolling == old(scrolling)
      ensures Transition(old(state), b).1 == PassThrough ==>
                var first := DataStep(old(ScreenState()), ESC, rows, columns, allocFails);
                var r := DataStep(first.screen, b, rows, columns, allocFails);
                ScreenState() == r.screen && fault == r.fault && argbuf[..] == old(argbuf[..]) &&
                savedCursor == old(savedCursor) && highlight == old(highlight) && scrolling == old(scrolling)
    {
      fault := false;
      if b == 0 {
        return;
      }
      if state == Params {
        if b < 64 {
          CollectByte(b);
        } else {
          DispatchFinal(b);
        }
      } else if state == Escape {
        if b == LEFT_BRACKET {
          state := Params;
        } else {
          fault := PassThroughByte(b, allocFails);
        }
      } else {
        if b == ESC {
          state := Escape;
        } else {
          fault := ProcessData(b, allocFails);
        }
      }
    }

    /** receive(byte[]): receive(byte) for each byte in turn, until one
        throws. Plain text in the normal state is processData of each byte. */
    method ReceiveAll(bs: seq<JByte>, allocFails: bool) returns (fault: bool)
      requires Valid()
      modifies this, buffer, argbuf
      ensures Valid()
      ensures !fault ==> state == Feed(old(state), bs)
      ensures old(state) == Normal && PlainText(bs) ==>
                state == Normal &&
                Landing(ScreenState(), fault) == DataRun(old(ScreenState()), bs, rows, columns, allocFails)
    {
      ghost var start := ScreenState();
      ghost var text := state == Normal && PlainText(bs);
      if text {
        PlainTextStaysNormal(bs);
      }
      fault := false;
      var i := 0;
      while i < |bs| && !fault
        invariant 0 <= i <= |bs| && Valid()
        invariant buffer == old(buffer) || fresh(buffer)
        invariant argbuf == old(argbuf) || fresh(argbuf)
        invariant !fault ==> state == Feed(old(state), bs[..i])
        invariant text ==> state == Normal
        invariant text ==> Landing(ScreenState(), fault) == DataRun(start, bs[..i], rows, columns, allocFails)
      {
        fault := ReceiveNext(bs[i], allocFails);
        assert bs[..i + 1] == bs[..i] + [bs[i]];
        FeedSnoc(old(state), bs[..i], bs[i]);
        if text {
          DataRunSplits(start, bs[..i], [bs[i]], rows, columns, allocFails);
        }
        i := i + 1;
      }
      if text && fault {
        assert bs == bs[..i] + bs[i..];
        DataRunStops(start, bs[..i], bs[i..], rows, columns, allocFails);
      }
      assert !fault ==> bs[..i] == bs;
    }

    /** One turn of receive(byte[]): what Receive promises, cut down to the
        recogniser's state and the data case. */
    method ReceiveNext(b: JByte, allocFails: bool) returns (fault: bool)
      requires Valid()
      modifies this, buffer, argbuf
      ensures Valid()
      ensures argbuf == old(argbuf) || fresh(argbuf)
      ensures buffer == old(buffer) || fresh(buffer)
      ensures state == Transition(old(state), b).0
      ensures Transition(old(state), b).1 == Data ==>
                Landing(ScreenState(), fault) == DataRun(old(ScreenState()), [b], rows, columns, allocFails)
    {
      DataRunOne(ScreenState(), b, rows, columns, allocFails);
      fault := Receive(b, allocFails);
    }

    /** The final byte of a control sequence: run the command (an exception
        it raised has already been caught), clear the count, back to normal. */
    method DispatchFinal(b: JByte)
      requires Valid()
      modifies this, buffer, argbuf
      ensures Valid() && state == Normal && argbuf == old(argbuf) && buffer == old(buffer)
      ensures var e := Execute(b, old(PaneState()), old(argbuf[..]), old(bound), rows, columns);
              PaneState() == e.pane && argbuf[..] == old(argbuf[..])[0 := 0]
      ensures bound == old(bound) && scrollY == old(scrollY) && scrolling == old(scrolling)
    {
      var _ := ProcessCommand(b);
      argbuf[0] := 0;
      state := Normal;
    }

    /** A byte after ESC that is not `[`: back to normal, then ESC and the
        byte both go to processData. ESC is below 32, so the first call never
        stores and never throws. */
    method PassThroughByte(b: JByte, allocFails: bool) returns (fault: bool)
      requires Valid()
      modifies this, buffer
      ensures Valid() && state == Normal && argbuf == old(argbuf) && argbuf[..] == old(argbuf[..])
      ensures buffer == old(buffer) || fresh(buffer)
      ensures var first := DataStep(old(ScreenState()), ESC, rows, columns, allocFails);
              var r := DataStep(first.screen, b, rows, columns, allocFails);
              ScreenState() == r.screen && fault == r.fault
      ensures savedCursor == old(savedCursor) && highlight == old(highlight) && scrolling == old(scrolling)
    {
      state := Normal;
      var _ := ProcessData(ESC, allocFails);
      fault := ProcessData(b, allocFails);
    }

    /** A parameter byte: `argbuf[0]++`, a doubled copy of the array when the
        count reaches its length, then the byte as a `char` at the count. */
    method CollectByte(b: JByte)
      requires WellShaped(argbuf[..])
      modifies this, argbuf
      ensures argbuf[..] == Appended(old(argbuf[..]), b)
      ensures argbuf == old(argbuf) || fresh(argbuf)
      ensures buffer == old(buffer) && cursor == old(cursor) && savedCursor == old(savedCursor)
      ensures bound == old(bound) && scrollY == old(scrollY) && highlight == old(highlight)
      ensures state == old(state) && scrolling == old(scrolling)
    {
      var n := CharSucc(argbuf[0]);
      argbuf[0] := n;
      if n as int == argbuf.Length {
        var tmp := new Char16[argbuf.Length * 2](_ => 0);
        forall k | 0 <= k < argbuf.Length {
          tmp[k] := argbuf[k];
        }
        argbuf := tmp;
      }
      argbuf[n] := ToChar(b);
    }

    // -------------------------------------------------------------------------
    // Scroll lock
    // -------------------------------------------------------------------------

    /** The scroll-lock branches of keyPressed (one row) and keyRepeated (half
        a screen) for DOWN and UP. */
    method ScrollKey(down: bool, repeated: bool)
      requires Valid()
      modifies this
      ensures Valid()
      ensures scrollY == if scrolling
                         then ScrollStep(old(scrollY), LastVisible(bound, rows, columns), down,
                                         if repeated then rows / 2 else 1)
                         else old(scrollY)
      ensures buffer == old(buffer) && argbuf == old(argbuf) && cursor == old(cursor) && bound == old(bound)
      ensures savedCursor == old(savedCursor) && highlight == old(highlight)
      ensures state == old(state) && scrolling == old(scrolling)
    {
      if scrolling {
        var step := if repeated then rows / 2 else 1;
        if down {
          scrollY := scrollY + step;
          if scrollY > LastVisibleScreen() {
            scrollY := LastVisibleScreen();
          }
        } else {
          scrollY := scrollY - step;
          if scrollY < 0 {
            scrollY := 0;
          }
        }
      }
    }
  }
}
