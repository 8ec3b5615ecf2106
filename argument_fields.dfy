/**
 * The reference reading of a parameter string: split on `;`. The scanning
 * loops of getArgument and getArgumentCount are proved to agree with it
 * whenever no field is empty.
 */
module ArgumentFields {
  import opened JavaNum
  import opened Faults
  import opened Arguments

  /** There is one field more than there are separators. */
  lemma {:induction false} FieldsCount(params: seq<Char16>)
    ensures |Fields(params)| == multiset(params)[SEMICOLON] + 1
  {
    if |params| > 0 {
      assert params == [params[0]] + params[1..];
      FieldsCount(params[1..]);
    }
  }

  lemma {:induction false} FieldsWithoutSeparator(params: seq<Char16>)
    requires SEMICOLON !in params
    ensures Fields(params) == [params]
  {
    if |params| > 0 {
      FieldsWithoutSeparator(params[1..]);
      assert [params[0]] + params[1..] == params;
    }
  }

  lemma {:induction false} FieldsOfJoin(first: seq<Char16>, rest: seq<Char16>)
    requires SEMICOLON !in first
    ensures Fields(first + [SEMICOLON] + rest) == [first] + Fields(rest)
  {
    if |first| > 0 {
      var whole := first + [SEMICOLON] + rest;
      assert whole[1..] == first[1..] + [SEMICOLON] + rest;
      FieldsOfJoin(first[1..], rest);
      assert [first[0]] + first[1..] == first;
    } else {
      assert first + [SEMICOLON] + rest == [SEMICOLON] + rest;
    }
  }

  /** The scan from `a` stops at the end of the first field of `s[a..c]`. */
  lemma FieldEndSplits(s: seq<Char16>, c: int, a: nat)
    requires a <= c <= |s|
    ensures FieldEnd(s, c, a) < c ==>
              Fields(s[a..c]) == [s[a..FieldEnd(s, c, a)]] + Fields(s[FieldEnd(s, c, a) + 1..c])
    ensures FieldEnd(s, c, a) == c ==> Fields(s[a..c]) == [s[a..c]]
  {
    SplitAtSeparator(s, c, a);
    NoSeparatorLeft(s, c, a);
  }

  /** One step of `Fields` on a slice. */
  lemma FieldsOfSlice(s: seq<Char16>, c: int, a: nat)
    requires a < c <= |s|
    ensures var rest := Fields(s[a + 1..c]);
            Fields(s[a..c]) == if s[a] == SEMICOLON then [[]] + rest else [[s[a]] + rest[0]] + rest[1..]
  {
    var t := s[a..c];
    assert t[0] == s[a] && t[1..] == s[a + 1..c];
  }

  lemma {:induction false} SplitAtSeparator(s: seq<Char16>, c: int, a: nat)
    requires a <= c <= |s|
    ensures FieldEnd(s, c, a) < c ==>
              Fields(s[a..c]) == [s[a..FieldEnd(s, c, a)]] + Fields(s[FieldEnd(s, c, a) + 1..c])
    decreases c - a
  {
    var p := FieldEnd(s, c, a);
    if a < c && p < c {
      FieldsOfSlice(s, c, a);
      if s[a] != SEMICOLON {
        SplitAtSeparator(s, c, a + 1);
        assert p == FieldEnd(s, c, a + 1);
        assert [s[a]] + s[a + 1..p] == s[a..p];
      } else {
        assert s[a..a] == [];
      }
    }
  }

  lemma {:induction false} NoSeparatorLeft(s: seq<Char16>, c: int, a: nat)
    requires a <= c <= |s|
    ensures FieldEnd(s, c, a) == c ==> Fields(s[a..c]) == [s[a..c]]
    decreases c - a
  {
    if a < c && FieldEnd(s, c, a) == c {
      FieldsOfSlice(s, c, a);
      NoSeparatorLeft(s, c, a + 1);
      assert [s[a]] + s[a + 1..c] == s[a..c];
    } else if a == c {
      assert s[a..c] == [];
    }
  }

  /** The first field of `s[a..c]`, when it is not empty, is read from `a`. */
  lemma {:induction false} FirstField(s: seq<Char16>, c: int, a: nat)
    requires a < c <= |s|
    requires |Fields(s[a..c])[0]| > 0
    ensures FieldStartsAt(s, c, a, Fields(s[a..c])[0])
  {
    FieldEndSplits(s, c, a);
    assert FieldEnd(s, c, a) == FieldEnd(s, c, a + 1);
  }

  /** When the first field is followed by the fields of `rest`, and no field
      is empty, `rest` is not empty and has no empty field either. */
  lemma {:induction false} RestOfFields(fs: seq<seq<Char16>>, first: seq<Char16>, rest: seq<Char16>)
    requires fs == [first] + Fields(rest) && NoEmptyField(fs)
    ensures |rest| > 0
    ensures fs[1..] == Fields(rest)
    ensures NoEmptyField(Fields(rest))
  {
    assert fs[1..] == Fields(rest);
    var nothing: seq<Char16> := [];
    assert Fields(nothing) == [[]];
    assert |fs[1]| > 0;
  }

  /** After the first field of `s[a..c]` comes a separator at `p` and the
      remaining fields start at `p + 1`. */
  lemma {:induction false} PastFirstField(s: seq<Char16>, c: int, a: nat, p: nat)
    requires 1 <= a < c <= |s|
    requires NoEmptyField(Fields(s[a..c]))
    requires p == FieldEnd(s, c, a) && p < c
    ensures p + 1 < c && NoEmptyField(Fields(s[p + 1..c]))
  {
    FieldEndSplits(s, c, a);
    RestOfFields(Fields(s[a..c]), s[a..p], s[p + 1..c]);
  }

  /** One turn of the outer loop from the start of a field: the next
      separator is the end of that field, if it comes before `c`. */
  lemma {:induction false} SkipOneField(s: seq<Char16>, c: int, a: nat, i: nat)
    requires 1 <= a < c <= |s| && i > 0
    ensures var p := FieldEnd(s, c, a);
            SkipFields(s, c, a, i) == if p < c then SkipFields(s, c, p + 1, i - 1) else Err(NoSuchArgument)
  {
  }

  /** Skipping `i` separators from `a` lands on the start of field `i` of
      `s[a..c]`, or fails with NoSuchArgument when there is no field `i`. */
  predicate ReachesField(s: seq<Char16>, c: int, a: nat, i: nat)
    requires a <= c <= |s|
  {
    var r := SkipFields(s, c, a, i);
    var fs := Fields(s[a..c]);
    (i < |fs| ==> r.Ok? && FieldStartsAt(s, c, r.value, fs[i])) &&
    (i >= |fs| ==> r == Err(NoSuchArgument))
  }

  /** Field `i` of `[first] + tail` is field `i - 1` of `tail`. */
  lemma {:induction false} NextField(s: seq<Char16>, c: int, r: Result<nat>, fs: seq<seq<Char16>>,
                  first: seq<Char16>, tail: seq<seq<Char16>>, i: nat)
    requires c <= |s| && i > 0 && fs == [first] + tail
    requires i - 1 < |tail| ==> r.Ok? && FieldStartsAt(s, c, r.value, tail[i - 1])
    requires i - 1 >= |tail| ==> r == Err(NoSuchArgument)
    ensures i < |fs| ==> r.Ok? && FieldStartsAt(s, c, r.value, fs[i])
    ensures i >= |fs| ==> r == Err(NoSuchArgument)
  {
  }

  /** The step of the induction: past the first field's separator. */
  lemma {:induction false} ReachesNextField(s: seq<Char16>, c: int, a: nat, i: nat, p: nat)
    requires 1 <= a < c <= |s| && i > 0
    requires p == FieldEnd(s, c, a) && p + 1 < c
    requires ReachesField(s, c, p + 1, i - 1)
    ensures ReachesField(s, c, a, i)
  {
    var r := SkipFields(s, c, p + 1, i - 1);
    var fs := Fields(s[a..c]);
    var tail := Fields(s[p + 1..c]);
    assert SkipFields(s, c, a, i) == r by {
      SkipOneField(s, c, a, i);
    }
    assert fs == [s[a..p]] + tail by {
      FieldEndSplits(s, c, a);
    }
    NextField(s, c, r, fs, s[a..p], tail, i);
  }

  /** A field with no separator after it is the last one. */
  lemma {:induction false} ReachesPastLastField(s: seq<Char16>, c: int, a: nat, i: nat)
    requires 1 <= a < c <= |s| && i > 0
    requires FieldEnd(s, c, a) == c
    ensures ReachesField(s, c, a, i)
  {
    SkipOneField(s, c, a, i);
    FieldEndSplits(s, c, a);
  }

  /** Skipping `i` separators from the start of a field lands on the start of
      field `i`; asking for one past the last field fails with NoSuchArgument. */
  lemma {:induction false} SkipFieldsReachesField(s: seq<Char16>, c: int, a: nat, i: nat)
    requires 1 <= a < c <= |s|
    requires NoEmptyField(Fields(s[a..c]))
    ensures ReachesField(s, c, a, i)
    decreases i
  {
    if i == 0 {
      FirstField(s, c, a);
    } else {
      var p := FieldEnd(s, c, a);
      if p < c {
        PastFirstField(s, c, a, p);
        SkipFieldsReachesField(s, c, p + 1, i - 1);
        ReachesNextField(s, c, a, i, p);
      } else {
        ReachesPastLastField(s, c, a, i);
      }
    }
  }

  /** getArgument(i) on a buffer whose parameter string has no empty field is
      Integer.parseInt of the i-th `;`-separated field, and fails with
      NoSuchArgument when there are not i+1 fields. */
  lemma {:induction false} ArgumentAtField(s: seq<Char16>, i: nat)
    requires WellShaped(s) && s[0] >= 1
    requires NoEmptyField(Fields(s[1..s[0] as int + 1]))
    ensures var fs := Fields(s[1..s[0] as int + 1]);
            (i < |fs| ==> ArgumentAt(s, i) == ParseInt(fs[i])) &&
            (i >= |fs| ==> ArgumentAt(s, i) == Err(NoSuchArgument))
  {
    SkipFieldsReachesField(s, s[0] as int + 1, 1, i);
  }

  /** getArgumentCount counts the fields whenever the string does not end in a
      separator. */
  lemma {:induction false} ArgumentCountIsFieldCount(s: seq<Char16>)
    requires WellShaped(s) && s[0] >= 1
    requires s[s[0]] != SEMICOLON
    ensures ArgumentCount(s) == |Fields(s[1..s[0] as int + 1])|
  {
    var n := s[0] as int;
    FieldsCount(s[1..n + 1]);
    assert s[1..n + 1] == s[1..n] + [s[n]];
  }

  /** With nothing collected, getArgument(0) does not see "no argument": it
      parses the stale character left in slot 1 by an earlier sequence. */
  lemma {:induction false} EmptyBufferReadsStaleSlot(s: seq<Char16>)
    requires WellShaped(s) && s[0] == 0
    ensures ArgumentAt(s, 0) == ParseInt(s[1..2])
  {
  }
}
