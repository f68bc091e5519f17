/**
 * The pieces of the Java platform the image service relies on, with their
 * Java semantics written out: exceptions as an explicit outcome,
 * String.lastIndexOf, String.split on a one-character separator (which
 * drops trailing empty pieces) and StringUtils.isBlank.
 */
module JavaLang {
  import opened Wrappers

  /** The Java exceptions the modelled code can raise. */
  datatype Exception =
    | StringIndexOutOfBounds  // String.substring given a negative end index
    | ArrayIndexOutOfBounds   // reading past the end of an array
    | NullPointer             // unboxing a null Integer or Boolean

  /** A Java call either returns a value or throws. */
  datatype Outcome<T> = Returned(value: T) | Threw(error: Exception)

  /** String.lastIndexOf(c): the last position of `c` in `s`, or -1 when there is none. */
  function LastIndexOf(s: string, c: char): (r: int)
    ensures -1 <= r < |s|
    ensures r == -1 <==> c !in s
    ensures 0 <= r ==> s[r] == c
    ensures forall k :: r < k < |s| ==> s[k] != c
  {
    if |s| == 0 then -1
    else if s[|s| - 1] == c then |s| - 1
    else
      var init := s[..|s| - 1];
      var r := LastIndexOf(init, c);
      assert forall k :: 0 <= k < |init| ==> init[k] == s[k];
      r
  }

  /** The pieces joined back together with `c` between each two. */
  function Join(pieces: seq<string>, c: char): (s: string) {
    if |pieces| == 0 then ""
    else if |pieces| == 1 then pieces[0]
    else pieces[0] + [c] + Join(pieces[1..], c)
  }

  /** Two pieces join around one separator. */
  lemma JoinTwo(pieces: seq<string>, c: char)
    requires |pieces| == 2
    ensures Join(pieces, c) == pieces[0] + [c] + pieces[1]
  {
    assert Join(pieces[1..], c) == pieces[1];
  }

  /** Three pieces join around two separators. */
  lemma JoinThree(pieces: seq<string>, c: char)
    requires |pieces| == 3
    ensures Join(pieces, c) == pieces[0] + [c] + pieces[1] + [c] + pieces[2]
  {
    JoinTwo(pieces[1..], c);
    assert pieces[1..][0] == pieces[1] && pieces[1..][1] == pieces[2];
  }

  /**
   * Every piece of `s` between occurrences of `c`, empty pieces included:
   * what String.split computes before it drops trailing empty pieces.
   */
  function SplitAll(s: string, c: char): (r: seq<string>)
    ensures |r| >= 1
    ensures c in s ==> |r| >= 2
    ensures forall k :: 0 <= k < |r| ==> c !in r[k]
    ensures Join(r, c) == s
  {
    if |s| == 0 then [""]
    else
      var rest := SplitAll(s[1..], c);
      if s[0] == c then
        assert Join([""] + rest, c) == [c] + Join(rest, c);
        [""] + rest
      else
        var r := [[s[0]] + rest[0]] + rest[1..];
        assert Join(r, c) == [s[0]] + Join(rest, c) by {
          if |rest| > 1 {
            assert r[1..] == rest[1..];
          }
        }
        r
  }

  /** The pieces with every trailing empty piece removed. */
  function DropTrailingEmpty(pieces: seq<string>): (r: seq<string>)
    ensures |r| <= |pieces| && r == pieces[..|r|]
    ensures |r| > 0 ==> r[|r| - 1] != ""
    ensures forall k :: |r| <= k < |pieces| ==> pieces[k] == ""
  {
    if |pieces| > 0 && pieces[|pieces| - 1] == "" then DropTrailingEmpty(pieces[..|pieces| - 1])
    else pieces
  }

  /**
   * String.split(c) for a separator that is not a regular-expression
   * metacharacter: with no occurrence of `c` the result is the input
   * itself (so "" splits to [""]); otherwise the pieces between the
   * occurrences, with trailing empty pieces dropped.
   */
  function Split(s: string, c: char): (r: seq<string>)
    ensures c !in s ==> r == [s]
    ensures c in s ==> r == DropTrailingEmpty(SplitAll(s, c))
    ensures forall k :: 0 <= k < |r| ==> c !in r[k]
  {
    if c !in s then [s] else DropTrailingEmpty(SplitAll(s, c))
  }

  /** Splitting the join of separator-free pieces gives the pieces back. */
  lemma {:induction false} SplitAllJoin(pieces: seq<string>, c: char)
    requires |pieces| >= 1
    requires forall k :: 0 <= k < |pieces| ==> c !in pieces[k]
    ensures SplitAll(Join(pieces, c), c) == pieces
  {
    if |pieces| == 1 {
      SplitAllWithout(pieces[0], c);
    } else {
      SplitAllJoin(pieces[1..], c);
      SplitAllAfter(pieces[0], c, Join(pieces[1..], c));
      assert pieces == [pieces[0]] + pieces[1..];
    }
  }

  /**
   * String.split of the join of two or more separator-free pieces, the
   * last one non-empty, gives the pieces back.
   */
  lemma SplitJoin(pieces: seq<string>, c: char)
    requires |pieces| >= 2 && pieces[|pieces| - 1] != ""
    requires forall k :: 0 <= k < |pieces| ==> c !in pieces[k]
    ensures Split(Join(pieces, c), c) == pieces
  {
    var s := Join(pieces, c);
    SplitAllJoin(pieces, c);
    assert s == pieces[0] + [c] + Join(pieces[1..], c);
    assert s[|pieces[0]|] == c;
    assert DropTrailingEmpty(pieces) == pieces;
  }

  /** A string without `c` is one piece. */
  lemma {:induction false} SplitAllWithout(s: string, c: char)
    requires c !in s
    ensures SplitAll(s, c) == [s]
  {
    if |s| > 0 {
      SplitAllWithout(s[1..], c);
      assert [s[0]] + s[1..] == s;
    }
  }

  /** A separator after a `c`-free prefix closes the first piece. */
  lemma {:induction false} SplitAllAfter(a: string, c: char, rest: string)
    requires c !in a
    ensures SplitAll(a + [c] + rest, c) == [a] + SplitAll(rest, c)
  {
    if |a| == 0 {
      assert a + [c] + rest == [c] + rest;
      assert (a + [c] + rest)[1..] == rest;
    } else {
      var s := a + [c] + rest;
      assert s[0] == a[0] && s[0] != c;
      assert s[1..] == a[1..] + [c] + rest;
      SplitAllAfter(a[1..], c, rest);
      var tail := SplitAll(s[1..], c);
      assert tail == [a[1..]] + SplitAll(rest, c);
      assert tail[0] == a[1..] && tail[1..] == SplitAll(rest, c);
      assert [a[0]] + a[1..] == a;
    }
  }

  /** A non-empty string that does not end with `c` has a non-empty last piece. */
  lemma {:induction false} SplitAllLastPiece(s: string, c: char)
    requires |s| > 0 && s[|s| - 1] != c
    ensures var r := SplitAll(s, c); r[|r| - 1] != ""
  {
    if |s| > 1 {
      SplitAllLastPiece(s[1..], c);
    }
  }

  /** Every character of `s` is `c`. */
  predicate OnlyOf(s: string, c: char) {
    forall k :: 0 <= k < |s| ==> s[k] == c
  }

  /** A string of nothing but separators splits into empty pieces only. */
  lemma {:induction false} SplitAllOnlySeparators(s: string, c: char)
    requires OnlyOf(s, c)
    ensures forall k :: 0 <= k < |SplitAll(s, c)| ==> SplitAll(s, c)[k] == ""
  {
    if |s| > 0 {
      assert OnlyOf(s[1..], c) by {
        forall k | 0 <= k < |s[1..]| ensures s[1..][k] == c {
          assert s[1..][k] == s[k + 1];
        }
      }
      SplitAllOnlySeparators(s[1..], c);
      assert SplitAll(s, c) == [""] + SplitAll(s[1..], c);
    }
  }

  /** A string with some other character has a non-empty piece. */
  lemma {:induction false} SplitAllOtherChar(s: string, c: char)
    requires !OnlyOf(s, c)
    ensures exists k :: 0 <= k < |SplitAll(s, c)| && SplitAll(s, c)[k] != ""
  {
    if s[0] != c {
      assert SplitAll(s, c)[0] != "";
    } else {
      assert !OnlyOf(s[1..], c) by {
        var k :| 0 <= k < |s| && s[k] != c;
        assert s[1..][k - 1] == s[k];
      }
      SplitAllOtherChar(s[1..], c);
      var rest := SplitAll(s[1..], c);
      var k :| 0 <= k < |rest| && rest[k] != "";
      assert SplitAll(s, c) == [""] + rest;
      assert SplitAll(s, c)[k + 1] == rest[k];
    }
  }

  /** String.split yields no pieces at all exactly for a non-empty run of separators. */
  lemma SplitEmpty(s: string, c: char)
    ensures |Split(s, c)| == 0 <==> s != "" && OnlyOf(s, c)
  {
    var pieces := SplitAll(s, c);
    if !OnlyOf(s, c) {
      SplitAllOtherChar(s, c);
      if c in s {
        var k :| 0 <= k < |pieces| && pieces[k] != "";
        assert k < |DropTrailingEmpty(pieces)|;
      }
    } else if s != "" {
      SplitAllOnlySeparators(s, c);
      assert s[0] == c;
    }
  }

  /** Java's Character.isWhitespace, restricted to the ASCII range. */
  predicate IsWhitespace(ch: char) {
    ch == ' ' || ch == '\t' || ch == '\n' || ch == '\r' || ch == '\U{B}' || ch == '\U{C}'
    || ('\U{1C}' <= ch <= '\U{1F}')
  }

  /** StringUtils.isBlank: null, empty or whitespace only. */
  predicate IsBlank(s: Option<string>) {
    s.None? || forall k :: 0 <= k < |s.value| ==> IsWhitespace(s.value[k])
  }
}
