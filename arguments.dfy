/**
 * The argument buffer of a control sequence, as the terminal reads it.
 *
 * The buffer is a `char` array whose slot 0 holds the number of parameter
 * characters collected so far (Pascal style); the characters themselves sit in
 * slots 1..argbuf[0]. The functions here take the WHOLE array contents `s`,
 * because the source's scanning loops read past the logical end (a stale slot)
 * whenever the separators do not line up.
 */
module Arguments {
  import opened JavaNum
  import opened Faults

  /** The buffer shape the terminal maintains: room for slot 1, and a length in
      slot 0 that stays inside the array. */
  predicate WellShaped(s: seq<Char16>)
  {
    |s| >= 2 && (s[0] as int) < |s|
  }

  // ---------------------------------------------------------------------------
  // Integer.parseInt
  // ---------------------------------------------------------------------------

  predicate IsDigit(ch: Char16) { 48 <= ch <= 57 }

  predicate Numeral(str: seq<Char16>)
  {
    |str| >= 1 && forall k :: 0 <= k < |str| ==> IsDigit(str[k])
  }

  /** The value of a string of decimal digits (most significant first). */
  function DecimalValue(str: seq<Char16>): (v: nat)
    requires forall k :: 0 <= k < |str| ==> IsDigit(str[k])
  {
    if |str| == 0 then 0
    else
      assert IsDigit(str[|str| - 1]);
      10 * DecimalValue(str[..|str| - 1]) + (str[|str| - 1] as int - 48)
  }

  /** Integer.parseInt(str, 10): an optional leading '-', then one or more
      decimal digits, whose value must fit a 32-bit `int`. */
  function ParseInt(str: seq<Char16>): (r: Result<int>)
    ensures r.Ok? ==> INT_MIN <= r.value <= INT_MAX
    ensures r.Err? ==> r.fault == NotANumber
    ensures r.Ok? ==> SEMICOLON !in str
  {
    if Numeral(str) then
      var v := DecimalValue(str);
      if v <= INT_MAX then Ok(v) else Err(NotANumber)
    else if |str| >= 2 && str[0] == MINUS && Numeral(str[1..]) then
      var v: int := DecimalValue(str[1..]);
      if -v >= INT_MIN then Ok(-v) else Err(NotANumber)
    else
      Err(NotANumber)
  }

  /** The shortest decimal spelling of `n`, as a remote host sends it. */
  function Decimal(n: nat): (str: seq<Char16>)
    ensures Numeral(str)
  {
    if n < 10 then [(n + 48) as Char16]
    else Decimal(n / 10) + [(n % 10 + 48) as Char16]
  }

  /** Reading back a spelled number gives the number. */
  lemma {:induction false} DecimalValueOfDecimal(n: nat)
    ensures DecimalValue(Decimal(n)) == n
  {
    if n >= 10 {
      var str := Decimal(n);
      assert str[..|str| - 1] == Decimal(n / 10);
      DecimalValueOfDecimal(n / 10);
    }
  }

  /** Round trip: parseInt of the decimal spelling of an `int` in range is that
      number, with or without a minus sign. */
  lemma ParseDecimal(n: nat)
    ensures n <= INT_MAX ==> ParseInt(Decimal(n)) == Ok(n)
    ensures n <= -INT_MIN ==> ParseInt([MINUS] + Decimal(n)) == Ok(-(n as int))
  {
    DecimalValueOfDecimal(n);
    var str := [MINUS] + Decimal(n);
    assert str[1..] == Decimal(n);
    assert !Numeral(str) by { assert !IsDigit(str[0]); }
  }

  // ---------------------------------------------------------------------------
  // getArgument: the scanning loops, one function per loop
  // ---------------------------------------------------------------------------

  /** The `b` loop: the first `;` at or after `b` before the logical end `c`,
      or `c` itself when there is none (or `b` when `b` is already past `c`). */
  function FieldEnd(s: seq<Char16>, c: int, b: int): (e: int)
    requires 0 <= b && c <= |s|
    ensures b <= e
    ensures b < c ==> e <= c
    ensures b >= c ==> e == b
    ensures forall k :: b <= k < e ==> s[k] != SEMICOLON
    ensures e < c ==> s[e] == SEMICOLON
    decreases c - b
  {
    if b < c && s[b] != SEMICOLON then FieldEnd(s, c, b + 1) else b
  }

  /** The inner `while ( argbuf[a] != ';' )` loop: the index of the next `;`.
      It reads `s[a]` before testing against the logical end, and gives up with
      NoSuchArgument once `a` reaches `c`. */
  function FindSeparator(s: seq<Char16>, c: int, a: int): (r: Result<nat>)
    requires 0 <= a && c <= |s|
    ensures r.Ok? ==> a <= r.value < |s| && s[r.value] == SEMICOLON
    ensures a < c ==> r == (if FieldEnd(s, c, a) < c then Ok(FieldEnd(s, c, a)) else Err(NoSuchArgument))
    decreases |s| - a
  {
    if a >= |s| then Err(IndexOutOfRange)
    else if s[a] == SEMICOLON then Ok(a)
    else if a + 1 >= c then Err(NoSuchArgument)
    else FindSeparator(s, c, a + 1)
  }

  /** The outer `for` loop: skip `count` separators starting at `a`. */
  function SkipFields(s: seq<Char16>, c: int, a: nat, count: nat): (r: Result<nat>)
    requires c <= |s|
    ensures r.Ok? ==> a <= r.value
    ensures r.Ok? && count > 0 ==> a < r.value <= |s| && s[r.value - 1] == SEMICOLON
    decreases count
  {
    if count == 0 then Ok(a)
    else
      match FindSeparator(s, c, a)
      case Err(f) => Err(f)
      case Ok(p) => SkipFields(s, c, p + 1, count - 1)
  }

  /** getArgument(index): the `index`-th field, parsed. The field always takes
      at least the character at its start, even past the logical end. */
  function ArgumentAt(s: seq<Char16>, index: nat): (r: Result<int>)
    requires WellShaped(s)
    ensures r.Ok? ==> INT_MIN <= r.value <= INT_MAX
  {
    var c := s[0] as int + 1;
    match SkipFields(s, c, 1, index)
    case Err(f) => Err(f)
    case Ok(a) =>
      var b := FieldEnd(s, c, a + 1);
      if b > |s| then Err(IndexOutOfRange) else ParseInt(s[a..b])
  }

  /** getArgumentCount: 0 for an empty buffer, otherwise one more than the
      number of `;` before the last collected character. */
  function ArgumentCount(s: seq<Char16>): (n: nat)
    requires WellShaped(s)
    ensures n == 0 <==> s[0] == 0
    ensures n <= s[0] as int
  {
    if s[0] == 0 then 0 else 1 + multiset(s[1..s[0]])[SEMICOLON]
  }

  // ---------------------------------------------------------------------------
  // The reference reading: split on ';'
  // ---------------------------------------------------------------------------

  /** The `;`-separated fields of a parameter string. */
  function Fields(params: seq<Char16>): (fs: seq<seq<Char16>>)
    ensures |fs| >= 1
  {
    if |params| == 0 then [[]]
    else
      var rest := Fields(params[1..]);
      if params[0] == SEMICOLON then [[]] + rest
      else [[params[0]] + rest[0]] + rest[1..]
  }

  /** No field is empty: no leading or trailing `;`, and no `;;`. */
  predicate NoEmptyField(fs: seq<seq<Char16>>)
  {
    forall k :: 0 <= k < |fs| ==> |fs[k]| > 0
  }

  /** Field `f` starts at `a` (and ends where getArgument's `b` loop stops). */
  predicate FieldStartsAt(s: seq<Char16>, c: int, a: nat, f: seq<Char16>)
    requires c <= |s|
  {
    a < c && s[a..FieldEnd(s, c, a + 1)] == f
  }
}
