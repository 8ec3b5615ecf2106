/**
 * receive: the three-state recogniser for `ESC [ parameters final`, and what
 * it does with the argument buffer.
 */
module Parser {
  import opened JavaNum
  import opened Arguments

  datatype ParserState = Normal | Escape | Params

  /** What receive does with one byte. */
  datatype Action =
    | Ignore        // a NUL byte, in any state
    | Enter         // ESC in the normal state
    | Open          // `[` after ESC
    | PassThrough   // any other byte after ESC: data 27, then the byte as data
    | Collect       // a parameter byte (below 64, including the negative bytes)
    | Dispatch      // the final byte: run the command, clear the buffer
    | Data          // a byte in the normal state

  const LEFT_BRACKET: JByte := 91

  /** The next state and the action for byte `b` in state `st`. */
  function Transition(st: ParserState, b: JByte): (r: (ParserState, Action))
  {
    if b == 0 then (st, Ignore)
    else match st
      case Params => if b < 64 then (Params, Collect) else (Normal, Dispatch)
      case Escape => if b == LEFT_BRACKET then (Params, Open) else (Normal, PassThrough)
      case Normal => if b == ESC then (Escape, Enter) else (Normal, Data)
  }

  /** The state after a run of bytes. */
  function Feed(st: ParserState, bs: seq<JByte>): ParserState
    decreases |bs|
  {
    if |bs| == 0 then st else Feed(Transition(st, bs[0]).0, bs[1..])
  }

  /** The bytes without their NULs. */
  function WithoutNul(bs: seq<JByte>): (r: seq<JByte>)
    ensures 0 !in r
  {
    if |bs| == 0 then []
    else if bs[0] == 0 then WithoutNul(bs[1..])
    else [bs[0]] + WithoutNul(bs[1..])
  }

  /** NUL bytes are invisible to the recogniser, wherever they occur. */
  lemma {:induction false} NulInvisible(st: ParserState, bs: seq<JByte>)
    ensures Feed(st, bs) == Feed(st, WithoutNul(bs))
    decreases |bs|
  {
    if |bs| > 0 {
      NulInvisible(Transition(st, bs[0]).0, bs[1..]);
      if bs[0] != 0 {
        var w := [bs[0]] + WithoutNul(bs[1..]);
        assert w[0] == bs[0] && w[1..] == WithoutNul(bs[1..]);
      }
    }
  }

  lemma {:induction false} FeedConcat(st: ParserState, a: seq<JByte>, b: seq<JByte>)
    ensures Feed(st, a + b) == Feed(Feed(st, a), b)
    decreases |a|
  {
    if |a| > 0 {
      assert (a + b)[0] == a[0] && (a + b)[1..] == a[1..] + b;
      FeedConcat(Transition(st, a[0]).0, a[1..], b);
    } else {
      assert a + b == b;
    }
  }

  /** Feeding one more byte is one more transition. */
  lemma FeedSnoc(st: ParserState, bs: seq<JByte>, b: JByte)
    ensures Feed(st, bs + [b]) == Transition(Feed(st, bs), b).0
  {
    FeedConcat(st, bs, [b]);
    assert [b][1..] == [];
  }

  /** Parameter bytes keep the recogniser collecting. */
  lemma {:induction false} StaysInParams(ps: seq<JByte>)
    requires forall k :: 0 <= k < |ps| ==> ps[k] < 64
    ensures Feed(Params, ps) == Params
    decreases |ps|
  {
    if |ps| > 0 {
      StaysInParams(ps[1..]);
    }
  }

  lemma Introducer()
    ensures Feed(Normal, [ESC, LEFT_BRACKET]) == Params
  {
    var intro: seq<JByte> := [ESC, LEFT_BRACKET];
    assert Transition(Normal, ESC).0 == Escape;
    assert Transition(Escape, LEFT_BRACKET).0 == Params;
    assert intro[1..] == [LEFT_BRACKET];
    assert Feed(Escape, [LEFT_BRACKET]) == Feed(Params, []) by {
      assert [LEFT_BRACKET][1..] == [];
    }
  }

  lemma FinalByte(final: JByte)
    requires final >= 64
    ensures Feed(Params, [final]) == Normal
  {
    assert [final][1..] == [];
  }

  /** A complete control sequence `ESC [ parameters final` returns the
      recogniser to the normal state. */
  lemma CompleteSequence(ps: seq<JByte>, final: JByte)
    requires forall k :: 0 <= k < |ps| ==> ps[k] < 64
    requires final >= 64
    ensures Feed(Normal, [ESC, LEFT_BRACKET] + ps + [final]) == Normal
  {
    var intro: seq<JByte> := [ESC, LEFT_BRACKET];
    assert intro + ps + [final] == intro + (ps + [final]);
    FeedConcat(Normal, intro, ps + [final]);
    Introducer();
    FeedConcat(Params, ps, [final]);
    StaysInParams(ps);
    FinalByte(final);
  }

  /** Bytes that are neither NUL nor ESC. */
  predicate PlainText(bs: seq<JByte>)
  {
    forall k :: 0 <= k < |bs| ==> bs[k] != 0 && bs[k] != ESC
  }

  /** In the normal state, plain text is data byte by byte and never leaves
      the normal state. */
  lemma {:induction false} PlainTextStaysNormal(bs: seq<JByte>)
    requires PlainText(bs)
    ensures Feed(Normal, bs) == Normal
    ensures forall k :: 0 <= k < |bs| ==> Transition(Normal, bs[k]) == (Normal, Data)
    decreases |bs|
  {
    if |bs| > 0 {
      PlainTextStaysNormal(bs[1..]);
    }
  }

  // ---------------------------------------------------------------------------
  // The argument buffer
  // ---------------------------------------------------------------------------

  /** The parameter characters collected so far. */
  function Collected(s: seq<Char16>): seq<Char16>
    requires WellShaped(s)
  {
    s[1..s[0] as int + 1]
  }

  /** The buffer after one parameter byte: `argbuf[0]++` (a `char`, so 65535
      wraps to 0), a doubling copy when the length reaches the array's size,
      then the byte as a `char` at the new length. */
  function Appended(s: seq<Char16>, b: JByte): (r: seq<Char16>)
    requires WellShaped(s)
    ensures WellShaped(r)
  {
    var n := CharSucc(s[0]);
    var counted := s[0 := n];
    var grown := if n as int == |s| then counted + seq(|s|, _ => 0) else counted;
    grown[n as int := ToChar(b)]
  }

  /** Before the count wraps, appending adds the byte's char to the collected
      parameters, keeps every earlier one, and doubles the array exactly when
      it was full. */
  lemma AppendExtends(s: seq<Char16>, b: JByte)
    requires WellShaped(s) && s[0] < 0xFFFF
    ensures var r := Appended(s, b);
            Collected(r) == Collected(s) + [ToChar(b)] &&
            |r| == (if s[0] as int + 1 == |s| then 2 * |s| else |s|) &&
            (forall k :: s[0] as int + 1 < k < |s| ==> r[k] == s[k])
  {
    var r := Appended(s, b);
    assert Collected(r) == Collected(s) + [ToChar(b)] by {
      assert forall k :: 1 <= k <= s[0] as int ==> r[k] == s[k];
    }
  }

  /** When the count is already 65535, the increment wraps to 0 and the byte
      lands in slot 0, where it becomes the new count. */
  lemma AppendWraps(s: seq<Char16>, b: JByte)
    requires WellShaped(s) && s[0] == 0xFFFF
    ensures Appended(s, b)[0] == ToChar(b)
  {
  }

  /** The buffer after a run of parameter bytes. */
  function AppendAll(s: seq<Char16>, bs: seq<JByte>): (r: seq<Char16>)
    requires WellShaped(s)
    ensures WellShaped(r)
    decreases |bs|
  {
    if |bs| == 0 then s else AppendAll(Appended(s, bs[0]), bs[1..])
  }

  function Chars(bs: seq<JByte>): (cs: seq<Char16>)
    ensures |cs| == |bs| && forall k :: 0 <= k < |bs| ==> cs[k] == ToChar(bs[k])
  {
    seq(|bs|, k requires 0 <= k < |bs| => ToChar(bs[k]))
  }

  /** Starting from any buffer, a run of fewer than 65535 parameter bytes
      leaves exactly those bytes, as chars, after the ones already there. */
  lemma {:induction false} AppendAllCollects(s: seq<Char16>, bs: seq<JByte>)
    requires WellShaped(s) && s[0] as int + |bs| < 0xFFFF
    ensures Collected(AppendAll(s, bs)) == Collected(s) + Chars(bs)
    decreases |bs|
  {
    if |bs| > 0 {
      var s' := Appended(s, bs[0]);
      assert Collected(s') == Collected(s) + [ToChar(bs[0])] && s'[0] as int == s[0] as int + 1 by {
        AppendExtends(s, bs[0]);
      }
      calc {
        Collected(AppendAll(s, bs));
        Collected(AppendAll(s', bs[1..]));
        { AppendAllCollects(s', bs[1..]); }
        Collected(s') + Chars(bs[1..]);
        Collected(s) + ([ToChar(bs[0])] + Chars(bs[1..]));
        { CharsCons(bs); }
        Collected(s) + Chars(bs);
      }
    }
  }

  lemma CharsCons(bs: seq<JByte>)
    requires |bs| > 0
    ensures Chars(bs) == [ToChar(bs[0])] + Chars(bs[1..])
  {
    assert Chars(bs)[1..] == Chars(bs[1..]);
  }
}
