/**
 * The screen buffer's cell loops, one step function per loop shape.
 *
 * The buffer is a linear array of cells standing for a grid `columns` wide.
 * Every loop below does exactly what its Java counterpart does, including
 * stopping at the first index outside the array: Java throws there, the
 * command interpreter catches the throwable, and the cells already written
 * stay written. `Run.completed` is false in that case.
 */
module Cells {
  import opened JavaNum

  /** The cells after a loop, and whether the loop ran to its end. */
  datatype Run = Run(cells: seq<JByte>, completed: bool)

  const SPACE: JByte := 32

  /** `for ( i = hi; i >= lo; i-- ) buffer[i] = buffer[i-d];` */
  function CopyDown(s: seq<JByte>, hi: int, lo: int, d: int): (r: Run)
    ensures |r.cells| == |s|
    ensures forall k :: 0 <= k < |s| && !(lo <= k <= hi) ==> r.cells[k] == s[k]
    ensures r.completed <==> (hi < lo || (0 <= lo && hi < |s| && 0 <= lo - d && hi - d < |s|))
    decreases hi - lo
  {
    if hi < lo then Run(s, true)
    else if !(0 <= hi - d < |s|) || !(0 <= hi < |s|) then Run(s, false)
    else CopyDown(s[hi := s[hi - d]], hi - 1, lo, d)
  }

  /** `for ( i = lo; i < hi; i++ ) buffer[i] = v;` */
  function FillUp(s: seq<JByte>, lo: int, hi: int, v: JByte): (r: Run)
    ensures |r.cells| == |s|
    ensures forall k :: 0 <= k < |s| && !(lo <= k < hi) ==> r.cells[k] == s[k]
    ensures r.completed <==> (hi <= lo || (0 <= lo && hi <= |s|))
    ensures r.completed ==> forall k :: lo <= k < hi ==> r.cells[k] == v
    decreases hi - lo
  {
    if hi <= lo then Run(s, true)
    else if !(0 <= lo < |s|) then Run(s, false)
    else FillUp(s[lo := v], lo + 1, hi, v)
  }

  /** `for ( i = lo; i < hi; i++ ) if ( i < limit ) buffer[i] = buffer[i+d]; else buffer[i] = 0;` */
  function PullUp(s: seq<JByte>, lo: int, hi: int, limit: int, d: int): (r: Run)
    ensures |r.cells| == |s|
    ensures forall k :: 0 <= k < |s| && !(lo <= k < hi) ==> r.cells[k] == s[k]
    decreases hi - lo
  {
    if hi <= lo then Run(s, true)
    else if lo < limit then
      if !(0 <= lo + d < |s|) || !(0 <= lo < |s|) then Run(s, false)
      else PullUp(s[lo := s[lo + d]], lo + 1, hi, limit, d)
    else
      if !(0 <= lo < |s|) then Run(s, false)
      else PullUp(s[lo := 0], lo + 1, hi, limit, d)
  }

  /** A single `buffer[k] = v;`. */
  function Store(s: seq<JByte>, k: int, v: JByte): (r: Run)
    ensures r.completed <==> 0 <= k < |s|
    ensures r.completed ==> r.cells == s[k := v]
    ensures !r.completed ==> r.cells == s
  {
    if 0 <= k < |s| then Run(s[k := v], true) else Run(s, false)
  }

  /** Where `for ( i = x; i % columns != 0; i++ )` stops: the first row start
      at or after `x`. */
  function NextRowStart(x: int, columns: int): (r: int)
    requires columns > 0
    ensures r % columns == 0
    ensures x <= r < x + columns
    ensures forall k :: x <= k < r ==> JRem(k, columns) != 0
  {
    NextMultiple(x, columns);
    var r := x + (columns - x % columns) % columns;
    assert forall k :: x <= k < r ==> JRem(k, columns) != 0 by {
      forall k | x <= k < r ensures JRem(k, columns) != 0 {
        JRemZero(k, columns);
      }
    }
    r
  }

  /** Where processData leaves the cursor for a data byte `b` (before the
      bound is advanced): BS steps back, LF goes to the next row start, CR to
      the current row start, a visible byte steps forward, others stay. */
  function DataCursor(cursor: int, b: JByte, columns: int): (r: int)
    requires columns > 0
    ensures b == 8 ==> r == cursor - 1
    ensures b == 13 ==> r % columns == 0 && (cursor >= 0 ==> r <= cursor < r + columns)
                        && (cursor < 0 ==> cursor <= r < cursor + columns)
    ensures b == 10 ==> r % columns == 0 && (cursor >= 0 ==> cursor < r <= cursor + columns)
                        && (cursor < 0 ==> cursor + columns <= r < cursor + 2 * columns)
    ensures b > 31 ==> r == cursor + 1
    ensures b != 8 && b != 10 && b != 13 && b <= 31 ==> r == cursor
  {
    if b == 8 then cursor - 1
    else if b == 10 then
      AddDivisor(cursor - JRem(cursor, columns), columns);
      cursor + columns - JRem(cursor, columns)
    else if b == 13 then cursor - JRem(cursor, columns)
    else if b > 31 then cursor + 1
    else cursor
  }

  /** The `@` and `L` shift loop, when every index stays in the array and the
      distance is positive: each cell of `[lo, hi]` receives the cell `d` below. */
  lemma {:induction false} CopyDownShifts(s: seq<JByte>, hi: int, lo: int, d: int)
    requires d > 0 && 0 <= lo - d && hi < |s|
    ensures CopyDown(s, hi, lo, d).completed
    ensures forall k :: lo <= k <= hi ==> CopyDown(s, hi, lo, d).cells[k] == s[k - d]
    decreases hi - lo
  {
    if lo <= hi {
      var s' := s[hi := s[hi - d]];
      CopyDownShifts(s', hi - 1, lo, d);
    }
  }

  /** The `M` and `P` loop, when every index stays in the array: the cells of
      `[lo, limit)` receive the cell `d` above, the rest of `[lo, hi)` is zeroed. */
  lemma {:induction false} PullUpShifts(s: seq<JByte>, lo: int, hi: int, limit: int, d: int)
    requires 0 <= lo && hi <= |s| && d >= 0
    requires (if hi < limit then hi else limit) + d <= |s|
    ensures PullUp(s, lo, hi, limit, d).completed
    ensures forall k :: lo <= k < hi ==>
              PullUp(s, lo, hi, limit, d).cells[k] == if k < limit then s[k + d] else 0
    decreases hi - lo
  {
    if lo < hi {
      var s' := s[lo := if lo < limit then s[lo + d] else 0];
      PullUpShifts(s', lo + 1, hi, limit, d);
    }
  }

  /** A shift down followed by a fill, as `@` and `L` do them, cell by cell. */
  lemma ShiftThenFill(s: seq<JByte>, hi: int, lo: int, d: int, from: int, to: int, v: JByte)
    requires d > 0 && 0 <= lo - d && hi < |s|
    requires 0 <= from && to <= |s|
    ensures var shifted := CopyDown(s, hi, lo, d);
            var filled := FillUp(shifted.cells, from, to, v);
            shifted.completed && filled.completed &&
            forall k :: 0 <= k < |s| ==>
              filled.cells[k] == if from <= k < to then v else if lo <= k <= hi then s[k - d] else s[k]
  {
    CopyDownShifts(s, hi, lo, d);
  }
}
