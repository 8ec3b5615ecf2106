/**
 * processData: what one data byte does to the screen buffer, the cursor, the
 * bound (the furthest row boundary the cursor has reached) and the scroll
 * position, and the scroll-lock key arithmetic.
 */
module DataSink {
  import opened JavaNum
  import opened Cells

  /** The part of the terminal a data byte may change. */
  datatype Screen = Screen(cells: seq<JByte>, cursor: int, bound: int, scrollY: int)

  /** The screen after a data byte, and whether the byte's store threw
      (ArrayIndexOutOfBoundsException, which processData does not catch). */
  datatype Landing = Landing(screen: Screen, fault: bool)

  function Zeros(n: nat): (z: seq<JByte>)
    ensures |z| == n && forall k :: 0 <= k < n ==> z[k] == 0
  {
    seq(n, _ => 0)
  }

  /** calcLastVisibleScreen: the first row of the last screenful below the
      bound, or 0 while there is less than one screenful. */
  function LastVisible(bound: int, rows: int, columns: int): (r: int)
    requires bound >= 0 && columns > 0
    ensures r >= 0
  {
    if bound / columns - rows > 0 then bound / columns - rows else 0
  }

  /** With the bound on a row boundary at least one screen down, the last
      visible screen starts exactly `rows` rows above the bound. */
  lemma LastVisibleRow(bound: int, rows: int, columns: int)
    requires columns > 0 && rows >= 0 && rows * columns <= bound && bound % columns == 0
    ensures LastVisible(bound, rows, columns) * columns == bound - rows * columns
  {
    var q := bound / columns;
    assert bound == columns * q;
    if q < rows {
      MonotoneProduct(columns, q + 1, rows);
    }
    assert (q - rows) * columns == columns * q - rows * columns;
  }

  /** A larger bound never gives an earlier last screen. */
  lemma LastVisibleMonotone(b1: int, b2: int, rows: int, columns: int)
    requires 0 <= b1 <= b2 && columns > 0
    ensures LastVisible(b1, rows, columns) <= LastVisible(b2, rows, columns)
  {
    var q1, q2 := b1 / columns, b2 / columns;
    if q2 < q1 {
      DivModOf(b1, columns, q1, b1 % columns);
      DivModOf(b2, columns, q2, b2 % columns);
      MonotoneProduct(columns, q2 + 1, q1);
    }
  }

  /** The eviction when the buffer cannot grow: the upper half moves to the
      bottom and everything from `half` on is zeroed. */
  function Evicted(s: seq<JByte>): (r: seq<JByte>)
  {
    var half := |s| / 2;
    s[half..2 * half] + Zeros(|s| - half)
  }

  /** The first step of processData: when fewer than `columns` cells remain
      after the cursor, grow the buffer by sixteen screens, or, when the
      allocation fails, evict the older half and pull the cursor back. */
  function Room(s: Screen, rows: int, columns: int, allocFails: bool): (r: Screen)
    requires s.bound >= 0 && rows > 0 && columns > 0
    ensures r.bound == s.bound
  {
    if s.cursor + columns > |s.cells| then
      if !allocFails then s.(cells := s.cells + Zeros(rows * columns * 16))
      else
        var half := |s.cells| / 2;
        var oldLast := LastVisible(s.bound, rows, columns);
        s.(cells := Evicted(s.cells), cursor := s.cursor - half,
           scrollY := if s.scrollY == oldLast then LastVisible(s.bound, rows, columns) else s.scrollY)
    else s
  }

  /** The `while ( cursor > bound ) bound += columns;` loop. */
  function RaiseBound(bound: int, cursor: int, columns: int): (r: int)
    requires columns > 0
    ensures r >= bound && r >= cursor
    ensures (r - bound) % columns == 0
    ensures r == bound || r - columns < cursor
    decreases cursor - bound
  {
    if cursor > bound then
      var r := RaiseBound(bound + columns, cursor, columns);
      assert (r - bound) % columns == 0 by {
        var x := r - (bound + columns);
        AddDivisor(x, columns);
        assert x + columns == r - bound;
      }
      r
    else bound
  }

  /** processData(b). */
  function DataStep(s: Screen, b: JByte, rows: int, columns: int, allocFails: bool): (r: Landing)
    requires s.bound >= 0 && rows > 0 && columns > 0
    ensures r.fault ==> b > 31
    ensures r.screen.bound >= s.bound
    ensures s.bound % columns == 0 ==> r.screen.bound % columns == 0
  {
    Land(Room(s, rows, columns, allocFails), b, rows, columns)
  }

  /** processData(b) once there is room: move the cursor or store the byte,
      raise the bound, and let the scroll position follow. */
  function Land(t: Screen, b: JByte, rows: int, columns: int): (r: Landing)
    requires t.bound >= 0 && rows > 0 && columns > 0
    ensures r.fault ==> b > 31
    ensures r.screen.bound >= t.bound
    ensures t.bound % columns == 0 ==> r.screen.bound % columns == 0
  {
    var offsetY := LastVisible(t.bound, rows, columns);
    var cursor := DataCursor(t.cursor, b, columns);
    if b > 31 && !(0 <= t.cursor < |t.cells|) then
      Landing(t.(cursor := cursor), true)
    else
      var cells := if b > 31 then t.cells[t.cursor := b] else t.cells;
      var bound := RaiseBound(t.bound, cursor, columns);
      assert t.bound % columns == 0 ==> bound % columns == 0 by {
        if t.bound % columns == 0 {
          SumOfMultiples(t.bound, bound - t.bound, columns);
        }
      }
      var newY := LastVisible(bound, rows, columns);
      var scrollY := if newY != offsetY && offsetY == t.scrollY then ShortCast(newY) else t.scrollY;
      Landing(Screen(cells, cursor, bound, scrollY), false)
  }

  // ---------------------------------------------------------------------------
  // Properties of processData
  // ---------------------------------------------------------------------------

  /** A successful growth keeps the old cells as a prefix and adds sixteen
      zeroed screens; the cursor, bound and scroll position are untouched. */
  lemma GrowthKeepsContents(s: Screen, rows: int, columns: int)
    requires s.bound >= 0 && rows > 0 && columns > 0
    requires s.cursor + columns > |s.cells|
    ensures var t := Room(s, rows, columns, false);
            |t.cells| == |s.cells| + rows * columns * 16 &&
            t.cells[..|s.cells|] == s.cells &&
            (forall k :: |s.cells| <= k < |t.cells| ==> t.cells[k] == 0) &&
            t.cursor == s.cursor && t.scrollY == s.scrollY
  {
  }

  /** The eviction keeps the newer half at the bottom, moves the cursor back
      by the same amount, and leaves the bound, hence the last visible screen
      and the scroll position, as they were. */
  lemma EvictionKeepsNewerHalf(s: Screen, rows: int, columns: int)
    requires s.bound >= 0 && rows > 0 && columns > 0
    requires s.cursor + columns > |s.cells|
    ensures var t := Room(s, rows, columns, true);
            var half := |s.cells| / 2;
            |t.cells| == |s.cells| &&
            (forall k :: 0 <= k < half ==> t.cells[k] == s.cells[k + half]) &&
            (forall k :: half <= k < |t.cells| ==> t.cells[k] == 0) &&
            t.cursor == s.cursor - half && t.bound == s.bound && t.scrollY == s.scrollY
  {
  }

  /** `t` is `s` followed by zeroed cells: what growth makes of the buffer. */
  predicate ZeroExtended(t: seq<JByte>, s: seq<JByte>)
  {
    |s| <= |t| && t[..|s|] == s && forall k :: |s| <= k < |t| ==> t[k] == 0
  }

  /** A visible byte (above 31, so not one of the bytes 128..255, which are
      negative) is stored where the cursor was, and the cursor moves on by one;
      no other old cell changes, and any cells the growth added are zero. Only
      the eviction, when the buffer cannot grow, is excluded. */
  lemma PrintableStored(s: Screen, b: JByte, rows: int, columns: int, allocFails: bool)
    requires s.bound >= 0 && rows > 0 && columns > 0 && b > 31
    requires 0 <= s.cursor < |s.cells|
    requires allocFails ==> s.cursor + columns <= |s.cells|
    ensures var r := DataStep(s, b, rows, columns, allocFails);
            !r.fault && r.screen.cursor == s.cursor + 1 &&
            ZeroExtended(r.screen.cells, s.cells[s.cursor := b])
    ensures s.cursor + columns <= |s.cells| ==>
              DataStep(s, b, rows, columns, allocFails).screen.cells == s.cells[s.cursor := b]
  {
    var t := Room(s, rows, columns, allocFails);
    var r := DataStep(s, b, rows, columns, allocFails);
    assert ZeroExtended(t.cells, s.cells) && t.cursor == s.cursor;
    assert r.screen.cells == t.cells[s.cursor := b];
    assert r.screen.cells[..|s.cells|] == s.cells[s.cursor := b];
  }

  /** Bytes below 32 other than BS, LF and CR, and the negative bytes, change
      no old cell and do not move the cursor. Only the eviction is excluded. */
  lemma ControlIgnored(s: Screen, b: JByte, rows: int, columns: int, allocFails: bool)
    requires s.bound >= 0 && rows > 0 && columns > 0 && b <= 31 && b != 8 && b != 10 && b != 13
    requires allocFails ==> s.cursor + columns <= |s.cells|
    ensures var r := DataStep(s, b, rows, columns, allocFails);
            !r.fault && ZeroExtended(r.screen.cells, s.cells) && r.screen.cursor == s.cursor
  {
  }

  /** LF moves a non-negative cursor to the start of the next row and CR to
      the start of its own row; neither writes a cell. Only the eviction is
      excluded. */
  lemma LineFeedAndReturn(s: Screen, rows: int, columns: int, allocFails: bool)
    requires s.bound >= 0 && rows > 0 && columns > 0 && 0 <= s.cursor
    requires allocFails ==> s.cursor + columns <= |s.cells|
    ensures var lf := DataStep(s, 10, rows, columns, allocFails).screen;
            ZeroExtended(lf.cells, s.cells) && lf.cursor == (s.cursor / columns + 1) * columns
    ensures var cr := DataStep(s, 13, rows, columns, allocFails).screen;
            ZeroExtended(cr.cells, s.cells) && cr.cursor == (s.cursor / columns) * columns
    ensures s.cursor + columns <= |s.cells| ==>
              DataStep(s, 10, rows, columns, allocFails).screen.cells == s.cells &&
              DataStep(s, 13, rows, columns, allocFails).screen.cells == s.cells
  {
    var q := s.cursor / columns;
    assert s.cursor == columns * q + s.cursor % columns;
  }

  /** Unless the store threw, the bound never decreases, ends at or past the
      cursor, moves by whole rows, and stops at the first row boundary that
      reaches the cursor. */
  lemma BoundFollowsCursor(s: Screen, b: JByte, rows: int, columns: int, allocFails: bool)
    requires s.bound >= 0 && rows > 0 && columns > 0
    ensures var r := DataStep(s, b, rows, columns, allocFails);
            !r.fault ==>
              s.bound <= r.screen.bound && r.screen.cursor <= r.screen.bound &&
              (r.screen.bound - s.bound) % columns == 0 &&
              (r.screen.bound == s.bound || r.screen.bound - columns < r.screen.cursor)
    ensures var r := DataStep(s, b, rows, columns, allocFails);
            r.fault ==> r.screen.bound == s.bound && r.screen.scrollY == Room(s, rows, columns, allocFails).scrollY
  {
  }

  /** New data moves the scroll position only when it was on the last visible
      screen and that screen changed; it then follows to the new last screen
      (cast to `short`, which is the identity below 32768 rows). */
  lemma ScrollFollowsInput(s: Screen, b: JByte, rows: int, columns: int, allocFails: bool)
    requires s.bound >= 0 && rows > 0 && columns > 0
    ensures var t := Room(s, rows, columns, allocFails);
            var r := DataStep(s, b, rows, columns, allocFails).screen;
            var before := LastVisible(t.bound, rows, columns);
            var after := LastVisible(r.bound, rows, columns);
            (r.scrollY != t.scrollY ==> t.scrollY == before && after != before) &&
            (t.scrollY == before && after != before && after < 0x8000 ==> r.scrollY == after)
  {
    var t := Room(s, rows, columns, allocFails);
    var r := DataStep(s, b, rows, columns, allocFails).screen;
    LastVisibleMonotone(t.bound, r.bound, rows, columns);
  }

  /** The scroll position never passes the last visible screen: processData
      keeps `scrollY <= calcLastVisibleScreen()`. */
  lemma {:induction false} ScrollStaysAboveBottom(s: Screen, b: JByte, rows: int, columns: int, allocFails: bool)
    requires s.bound >= 0 && rows > 0 && columns > 0
    requires s.scrollY <= LastVisible(s.bound, rows, columns)
    ensures var r := DataStep(s, b, rows, columns, allocFails).screen;
            r.scrollY <= LastVisible(r.bound, rows, columns)
  {
    var t := Room(s, rows, columns, allocFails);
    var r := DataStep(s, b, rows, columns, allocFails).screen;
    LastVisibleMonotone(t.bound, r.bound, rows, columns);
    var after := LastVisible(r.bound, rows, columns);
    ShortCastBelow(after);
  }

  lemma ShortCastBelow(x: int)
    requires x >= 0
    ensures ShortCast(x) <= x
  {
  }

  // ---------------------------------------------------------------------------
  // A run of data bytes
  // ---------------------------------------------------------------------------

  /** processData on each byte of a run in turn, as `receive( byte[] )` does in
      the normal state; a store that throws ends the run there. */
  function DataRun(s: Screen, bs: seq<JByte>, rows: int, columns: int, allocFails: bool): (r: Landing)
    requires s.bound >= 0 && rows > 0 && columns > 0
    ensures r.screen.bound >= s.bound
    decreases |bs|
  {
    if |bs| == 0 then Landing(s, false)
    else
      var first := DataStep(s, bs[0], rows, columns, allocFails);
      if first.fault then first else DataRun(first.screen, bs[1..], rows, columns, allocFails)
  }

  /** A run that does not throw can be split anywhere. */
  lemma {:induction false} DataRunSplits(s: Screen, xs: seq<JByte>, ys: seq<JByte>, rows: int, columns: int, allocFails: bool)
    requires s.bound >= 0 && rows > 0 && columns > 0
    requires !DataRun(s, xs, rows, columns, allocFails).fault
    ensures DataRun(s, xs + ys, rows, columns, allocFails)
            == DataRun(DataRun(s, xs, rows, columns, allocFails).screen, ys, rows, columns, allocFails)
    decreases |xs|
  {
    if |xs| == 0 {
      assert xs + ys == ys;
    } else {
      var first := DataStep(s, xs[0], rows, columns, allocFails);
      assert (xs + ys)[0] == xs[0] && (xs + ys)[1..] == xs[1..] + ys;
      DataRunSplits(first.screen, xs[1..], ys, rows, columns, allocFails);
    }
  }

  /** An exception ends the run: the bytes after it are never looked at. */
  lemma {:induction false} DataRunStops(s: Screen, xs: seq<JByte>, ys: seq<JByte>, rows: int, columns: int, allocFails: bool)
    requires s.bound >= 0 && rows > 0 && columns > 0
    requires DataRun(s, xs, rows, columns, allocFails).fault
    ensures DataRun(s, xs + ys, rows, columns, allocFails) == DataRun(s, xs, rows, columns, allocFails)
    decreases |xs|
  {
    var first := DataStep(s, xs[0], rows, columns, allocFails);
    assert (xs + ys)[0] == xs[0] && (xs + ys)[1..] == xs[1..] + ys;
    if !first.fault {
      DataRunStops(first.screen, xs[1..], ys, rows, columns, allocFails);
    }
  }

  /** A run of one byte is that byte's step. */
  lemma DataRunOne(s: Screen, b: JByte, rows: int, columns: int, allocFails: bool)
    requires s.bound >= 0 && rows > 0 && columns > 0
    ensures DataRun(s, [b], rows, columns, allocFails) == DataStep(s, b, rows, columns, allocFails)
  {
    assert [b][1..] == [];
  }

  /** A run of visible bytes with room after it in the buffer writes the bytes
      in order from the cursor, changes no other cell, and moves the cursor on
      by the length of the run. */
  lemma {:induction false} TextWritten(s: Screen, bs: seq<JByte>, rows: int, columns: int, allocFails: bool)
    requires s.bound >= 0 && rows > 0 && columns > 0
    requires forall k :: 0 <= k < |bs| ==> bs[k] > 31
    requires 0 <= s.cursor && s.cursor + |bs| + columns <= |s.cells|
    ensures var r := DataRun(s, bs, rows, columns, allocFails);
            !r.fault && r.screen.cursor == s.cursor + |bs| && r.screen.cells == Written(s.cells, s.cursor, bs)
    decreases |bs|
  {
    if |bs| > 0 {
      var first := DataStep(s, bs[0], rows, columns, allocFails);
      PrintableStored(s, bs[0], rows, columns, allocFails);
      assert !first.fault && first.screen.cursor == s.cursor + 1;
      assert first.screen.cells == s.cells[s.cursor := bs[0]];
      TextWritten(first.screen, bs[1..], rows, columns, allocFails);
      assert DataRun(s, bs, rows, columns, allocFails) == DataRun(first.screen, bs[1..], rows, columns, allocFails);
      WrittenCons(s.cells, s.cursor, bs);
    }
  }

  /** The cells `cells` with `bs` written over them from `at`. */
  function Written(cells: seq<JByte>, at: nat, bs: seq<JByte>): (r: seq<JByte>)
    requires at + |bs| <= |cells|
    ensures |r| == |cells|
    ensures forall k :: 0 <= k < |cells| ==> r[k] == if at <= k < at + |bs| then bs[k - at] else cells[k]
  {
    cells[..at] + bs + cells[at + |bs|..]
  }

  lemma WrittenCons(cells: seq<JByte>, at: nat, bs: seq<JByte>)
    requires at + |bs| <= |cells| && |bs| > 0
    ensures Written(cells[at := bs[0]], at + 1, bs[1..]) == Written(cells, at, bs)
  {
    var x, y := Written(cells[at := bs[0]], at + 1, bs[1..]), Written(cells, at, bs);
    assert forall k :: 0 <= k < |cells| ==> x[k] == y[k];
  }

  /** A line of text shorter than a row, written from the start of a row and
      ended by LF, fills the start of that row and leaves the cursor at the
      start of the next row. */
  lemma LineOfText(s: Screen, text: seq<JByte>, rows: int, columns: int, allocFails: bool)
    requires s.bound >= 0 && rows > 0 && columns > 0
    requires forall k :: 0 <= k < |text| ==> text[k] > 31
    requires 0 <= s.cursor && s.cursor % columns == 0 && |text| < columns
    requires s.cursor + |text| + columns <= |s.cells|
    ensures var r := DataRun(s, text + [10], rows, columns, allocFails);
            !r.fault && r.screen.cursor == s.cursor + columns && r.screen.cells == Written(s.cells, s.cursor, text)
  {
    var w := DataRun(s, text, rows, columns, allocFails);
    assert !w.fault && w.screen.cursor == s.cursor + |text| && w.screen.cells == Written(s.cells, s.cursor, text) by {
      TextWritten(s, text, rows, columns, allocFails);
    }
    DataRunSplits(s, text, [10], rows, columns, allocFails);
    LineFeedWithRoom(w.screen, rows, columns, allocFails);
    NextRowAfterText(s.cursor, |text|, columns);
  }

  /** LF with room after the cursor, as a run of one byte. */
  lemma LineFeedWithRoom(w: Screen, rows: int, columns: int, allocFails: bool)
    requires w.bound >= 0 && rows > 0 && columns > 0
    requires 0 <= w.cursor && w.cursor + columns <= |w.cells|
    ensures var r := DataRun(w, [10], rows, columns, allocFails);
            !r.fault && r.screen.cells == w.cells && r.screen.cursor == (w.cursor / columns + 1) * columns
  {
    DataRunOne(w, 10, rows, columns, allocFails);
    LineFeedAndReturn(w, rows, columns, allocFails);
  }

  /** From a row start, fewer than `columns` cells on is still the same row. */
  lemma NextRowAfterText(x: int, n: int, columns: int)
    requires columns > 0 && 0 <= x && x % columns == 0 && 0 <= n < columns
    ensures ((x + n) / columns + 1) * columns == x + columns
  {
    var q := x / columns;
    assert x == columns * q;
    DivModOf(x + n, columns, q, n);
  }

  /** "Hello" and LF from the top-left cell of an empty-enough buffer: the five
      letters fill the start of row 0 and the cursor goes to the start of row 1. */
  lemma HelloLine(s: Screen, rows: int, columns: int, allocFails: bool)
    requires s.bound >= 0 && rows > 0 && columns > 5
    requires s.cursor == 0 && 5 + columns <= |s.cells|
    ensures var r := DataRun(s, [72, 101, 108, 108, 111, 10], rows, columns, allocFails);
            !r.fault && r.screen.cursor == columns &&
            r.screen.cells[..5] == [72, 101, 108, 108, 111] && r.screen.cells[5..] == s.cells[5..]
  {
    var hello: seq<JByte> := [72, 101, 108, 108, 111];
    assert hello + [10] == [72, 101, 108, 108, 111, 10];
    LineOfText(s, hello, rows, columns, allocFails);
  }

  // ---------------------------------------------------------------------------
  // Scroll lock
  // ---------------------------------------------------------------------------

  /** The scroll-lock key arithmetic: DOWN adds `step` and clamps at the last
      visible screen, UP subtracts it and clamps at 0. The other end is not
      clamped. */
  function ScrollStep(y: int, last: int, down: bool, step: int): (r: int)
  {
    if down then (if y + step > last then last else y + step)
    else (if y - step < 0 then 0 else y - step)
  }

  /** A scroll-lock step with a non-negative step keeps the position inside
      `[0, last]` when it starts there; DOWN never passes `last` and UP never
      passes 0 whatever the start; and when the step does not reach the end
      the position moves by exactly `step`. */
  lemma ScrollStepInRange(y: int, last: int, down: bool, step: int)
    requires step >= 0
    ensures 0 <= y <= last ==> 0 <= ScrollStep(y, last, down, step) <= last
    ensures down ==> ScrollStep(y, last, down, step) <= last
    ensures !down ==> ScrollStep(y, last, down, step) >= 0
    ensures down && y + step <= last ==> ScrollStep(y, last, down, step) == y + step
    ensures !down && y - step >= 0 ==> ScrollStep(y, last, down, step) == y - step
  {
  }
}
