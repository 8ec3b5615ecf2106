/**
 * processCommand: what one ANSI/VT100 control sequence does to the screen.
 *
 * A command acts on the cells, the cursor, the saved cursor and the highlight
 * flag; the bound and the screen size are read only. A throwable raised part
 * way (a missing or malformed argument, an index outside the buffer) is caught
 * by processCommand and the sequence ends there, keeping what it had already
 * changed; `Effect.outcome` records that.
 */
module Commands {
  import opened JavaNum
  import opened Faults
  import opened Arguments
  import opened Cells

  /** The part of the terminal a control sequence may change. */
  datatype Pane = Pane(cells: seq<JByte>, cursor: int, saved: int, highlight: bool)

  /** The pane after a command, and how the command ended. */
  datatype Effect = Effect(pane: Pane, outcome: Outcome)

  /** The command byte is the ASCII letter `ch`. */
  predicate Is(cmd: JByte, ch: char)
  {
    cmd as int == ch as int
  }

  /** Commands that write cells. */
  predicate Writes(cmd: JByte)
  {
    Is(cmd, '@') || Is(cmd, 'L') || Is(cmd, 'M') || Is(cmd, 'P') || Is(cmd, 'J') || Is(cmd, 'K')
  }

  /** Commands that may move the cursor. */
  predicate Moves(cmd: JByte)
  {
    Is(cmd, 'H') || Is(cmd, 'f') || Is(cmd, 'A') || Is(cmd, 'B') || Is(cmd, 'C') || Is(cmd, 'D') ||
    Is(cmd, 'd') || Is(cmd, 'G') || Is(cmd, 'u') || Is(cmd, 'J')
  }

  /** The pane after a cell loop, aborted if the loop left the buffer. */
  function AfterRun(p: Pane, r: Run): Effect
  {
    Effect(p.(cells := r.cells), if r.completed then Done else Aborted(IndexOutOfRange))
  }

  /** The pane after two cell loops in sequence; the second runs only if the
      first finished. */
  function AfterTwo(p: Pane, first: Run, second: Run): Effect
  {
    if first.completed then AfterRun(p, second) else AfterRun(p, first)
  }

  /** A relative move: one `unit` with no argument, else `unit` times getArgument(0). */
  function Relative(args: seq<Char16>, cursor: int, unit: int): (r: Result<int>)
    requires WellShaped(args)
  {
    if args[0] == 0 then Ok(cursor + unit)
    else
      match ArgumentAt(args, 0)
      case Err(f) => Err(f)
      case Ok(v) => Ok(cursor + unit * v)
  }

  /** `H` and `f`: row and column from the first two arguments, counted from
      1 at the screen's top-left cell; with no parameters, that cell. */
  function Position(args: seq<Char16>, bound: int, rows: int, columns: int): Result<int>
    requires WellShaped(args)
  {
    if args[0] > 0 then
      match ArgumentAt(args, 0)
      case Err(f) => Err(f)
      case Ok(row) =>
        match ArgumentAt(args, 1)
        case Err(f) => Err(f)
        case Ok(column) => Ok(bound - 1 - (rows - row) * columns - (columns - column))
    else Ok(bound - rows * columns)
  }

  /** The new cursor of a cursor command (H f A B C D d G u), or the fault
      that stopped it before the assignment. */
  function CursorTarget(cmd: JByte, cursor: int, saved: int, args: seq<Char16>,
                        bound: int, rows: int, columns: int): (r: Result<int>)
    requires WellShaped(args) && columns > 0
    ensures args[0] == 0 ==> r.Ok?
  {
    if Is(cmd, 'H') || Is(cmd, 'f') then Position(args, bound, rows, columns)
    else if Is(cmd, 'A') then Relative(args, cursor, -columns)
    else if Is(cmd, 'B') then Relative(args, cursor, columns)
    else if Is(cmd, 'C') then Relative(args, cursor, 1)
    else if Is(cmd, 'D') then Relative(args, cursor, -1)
    else if Is(cmd, 'd') then
      if args[0] > 0 then
        match ArgumentAt(args, 0)
        case Err(f) => Err(f)
        case Ok(row) => Ok(bound - (rows - row + 1) * columns + JRem(cursor, columns))
      else Ok(cursor)
    else if Is(cmd, 'G') then
      if args[0] > 0 then
        match ArgumentAt(args, 0)
        case Err(f) => Err(f)
        case Ok(column) => Ok(cursor - JRem(cursor, columns) + column)
      else Ok(cursor)
    else if Is(cmd, 'u') then Ok(saved)
    else Ok(cursor)
  }

  /** `@`: shift the rest of the row right by getArgument(0), then blank the gap. */
  function InsertBlanks(p: Pane, args: seq<Char16>, columns: int): (e: Effect)
    requires WellShaped(args) && columns > 0
  {
    match ArgumentAt(args, 0)
    case Err(f) => Effect(p, Aborted(f))
    case Ok(v) => InsertBlanksOf(p, v, columns)
  }

  /** `@` with argument `v`. */
  function InsertBlanksOf(p: Pane, v: int, columns: int): (e: Effect)
    requires columns > 0
  {
    var shifted := CopyDown(p.cells, p.cursor + columns - JRem(p.cursor, columns), p.cursor + v + 1, v);
    AfterTwo(p, shifted, FillUp(shifted.cells, p.cursor, p.cursor + v, SPACE))
  }

  /** `L`: shift the screen down by getArgument(0) rows from the cursor's row,
      then zero the opened rows. */
  function InsertLines(p: Pane, args: seq<Char16>, bound: int, columns: int): (e: Effect)
    requires WellShaped(args) && columns > 0
  {
    match ArgumentAt(args, 0)
    case Err(f) => Effect(p, Aborted(f))
    case Ok(v) => InsertLinesOf(p, v, bound, columns)
  }

  /** `L` with argument `v`. */
  function InsertLinesOf(p: Pane, v: int, bound: int, columns: int): (e: Effect)
    requires columns > 0
  {
    var n := v * columns;
    var origin := p.cursor - JRem(p.cursor, columns);
    var shifted := CopyDown(p.cells, bound, origin + n, n);
    AfterTwo(p, shifted, FillUp(shifted.cells, origin, origin + n, 0))
  }

  /** `M`: from the cursor to the bound, pull cells up by getArgument(0) rows
      while below `cursor + n`, zero the others. */
  function DeleteLines(p: Pane, args: seq<Char16>, bound: int, columns: int): (e: Effect)
    requires WellShaped(args) && columns > 0
  {
    match ArgumentAt(args, 0)
    case Err(f) => Effect(p, Aborted(f))
    case Ok(v) => DeleteLinesOf(p, v, bound, columns)
  }

  /** `M` with argument `v`. */
  function DeleteLinesOf(p: Pane, v: int, bound: int, columns: int): (e: Effect)
  {
    var n := v * columns;
    AfterRun(p, PullUp(p.cells, p.cursor, bound, p.cursor + n, n))
  }

  /** `P`: from the cursor to the end of its row, pull cells left by
      getArgument(0) while below `cursor + n`, zero the others. */
  function DeleteChars(p: Pane, args: seq<Char16>, columns: int): (e: Effect)
    requires WellShaped(args) && columns > 0
  {
    match ArgumentAt(args, 0)
    case Err(f) => Effect(p, Aborted(f))
    case Ok(v) => DeleteCharsOf(p, v, columns)
  }

  /** `P` with argument `v`. */
  function DeleteCharsOf(p: Pane, v: int, columns: int): (e: Effect)
    requires columns > 0
  {
    AfterRun(p, PullUp(p.cells, p.cursor, NextRowStart(p.cursor, columns), p.cursor + v, v))
  }

  /** The selector of J and K: getArgument(0) if any parameter arrived, else 0. */
  function Selector(args: seq<Char16>): (r: Result<int>)
    requires WellShaped(args)
    ensures args[0] == 0 ==> r == Ok(0)
  {
    if args[0] > 0 then ArgumentAt(args, 0) else Ok(0)
  }

  /** `J`: 1 erases from the screen's first cell through the cursor, 2 homes
      the cursor and erases the screen, anything else erases from the cursor
      to the bound. */
  function EraseDisplay(p: Pane, args: seq<Char16>, bound: int, rows: int, columns: int): (e: Effect)
    requires WellShaped(args)
  {
    match Selector(args)
    case Err(f) => Effect(p, Aborted(f))
    case Ok(arg) => EraseDisplayOf(p, arg, bound, rows, columns)
  }

  /** `J` with selector `arg`. */
  function EraseDisplayOf(p: Pane, arg: int, bound: int, rows: int, columns: int): (e: Effect)
  {
    var top := bound - rows * columns;
    if arg == 1 then AfterRun(p, FillUp(p.cells, top, p.cursor + 1, 0))
    else if arg == 2 then AfterRun(p.(cursor := top), FillUp(p.cells, top, bound, 0))
    else AfterRun(p, FillUp(p.cells, p.cursor, bound, 0))
  }

  /** `K`: 1 erases the cursor's row up to and including the cursor, 2 the whole
      row, anything else from the cursor to the end of the row. */
  function EraseLine(p: Pane, args: seq<Char16>, columns: int): (e: Effect)
    requires WellShaped(args) && columns > 0
  {
    match Selector(args)
    case Err(f) => Effect(p, Aborted(f))
    case Ok(arg) => EraseLineOf(p, arg, columns)
  }

  /** `K` with selector `arg`. */
  function EraseLineOf(p: Pane, arg: int, columns: int): (e: Effect)
    requires columns > 0
  {
    var start := p.cursor - JRem(p.cursor, columns);
    if arg == 1 then
      var first := Store(p.cells, p.cursor, 0);
      AfterTwo(p, first, FillUp(first.cells, start, p.cursor, 0))
    else if arg == 2 then
      var first := Store(p.cells, start, 0);
      AfterTwo(p, first, FillUp(first.cells, start + 1, NextRowStart(start + 1, columns), 0))
    else
      var first := Store(p.cells, p.cursor, 0);
      AfterTwo(p, first, FillUp(first.cells, p.cursor + 1, NextRowStart(p.cursor + 1, columns), 0))
  }

  /** `m`: for each argument index `i` from `from` up to `count`, the highlight
      becomes getArgument(i) > 0; the first failing argument ends the loop. */
  function Graphics(args: seq<Char16>, from: nat, count: nat, highlight: bool): (r: (bool, Outcome))
    requires WellShaped(args)
    ensures from >= count ==> r == (highlight, Done)
    decreases count - from
  {
    if from >= count then (highlight, Done)
    else
      match ArgumentAt(args, from)
      case Err(f) => (highlight, Aborted(f))
      case Ok(v) => Graphics(args, from + 1, count, v > 0)
  }

  /** processCommand(cmd) with the argument buffer `args`. */
  function Execute(cmd: JByte, p: Pane, args: seq<Char16>, bound: int, rows: int, columns: int): (e: Effect)
    requires WellShaped(args) && columns > 0
    ensures |e.pane.cells| == |p.cells|
    ensures e.pane.saved == if Is(cmd, 's') then p.cursor else p.saved
    ensures !Is(cmd, 'm') ==> e.pane.highlight == p.highlight
    ensures !Writes(cmd) ==> e.pane.cells == p.cells
    ensures !Moves(cmd) ==> e.pane.cursor == p.cursor
  {
    if Moves(cmd) && !Is(cmd, 'J') then
      match CursorTarget(cmd, p.cursor, p.saved, args, bound, rows, columns)
      case Err(f) => Effect(p, Aborted(f))
      case Ok(c) => Effect(p.(cursor := c), Done)
    else if Is(cmd, '@') then InsertBlanks(p, args, columns)
    else if Is(cmd, 'L') then InsertLines(p, args, bound, columns)
    else if Is(cmd, 'M') then DeleteLines(p, args, bound, columns)
    else if Is(cmd, 'P') then DeleteChars(p, args, columns)
    else if Is(cmd, 's') then Effect(p.(saved := p.cursor), Done)
    else if Is(cmd, 'J') then EraseDisplay(p, args, bound, rows, columns)
    else if Is(cmd, 'K') then EraseLine(p, args, columns)
    else if Is(cmd, 'm') then
      var (h, outcome) := Graphics(args, 0, ArgumentCount(args), p.highlight);
      Effect(p.(highlight := h), outcome)
    else Effect(p, Done)
  }

  /** One turn of the `m` loop. */
  lemma GraphicsStep(args: seq<Char16>, from: nat, count: nat, highlight: bool, v: int)
    requires WellShaped(args) && from < count && ArgumentAt(args, from) == Ok(v)
    ensures Graphics(args, from, count, highlight) == Graphics(args, from + 1, count, v > 0)
  {
  }
}
