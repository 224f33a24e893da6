/** String helpers with the meaning Python 2 gives them on byte strings:
    substring membership (`t in s`), `s.split(c)`, `sep.join(parts)`,
    `s.split(c)[-1]` and `s.strip()`. */
module Text {

  /** `t` occurs in `s` starting at index `i`. */
  ghost predicate OccursAt(t: string, s: string, i: int)
  {
    0 <= i && i + |t| <= |s| && s[i..i + |t|] == t
  }

  /** Python's `t in s` for strings: `t` is a contiguous substring of `s`
      (the empty string is in every string). */
  function Contains(s: string, t: string): (b: bool)
    ensures b <==> exists i :: OccursAt(t, s, i)
    decreases |s|
  {
    if |s| < |t| then
      assert forall i :: !OccursAt(t, s, i);
      false
    else if s[..|t|] == t then
      assert OccursAt(t, s, 0);
      true
    else
      var rest := Contains(s[1..], t);
      assert rest ==> exists i :: OccursAt(t, s, i) by {
        if rest {
          var i :| OccursAt(t, s[1..], i);
          assert s[1..][i..i + |t|] == s[i + 1..i + 1 + |t|];
          assert OccursAt(t, s, i + 1);
        }
      }
      assert (exists i :: OccursAt(t, s, i)) ==> rest by {
        if exists i :: OccursAt(t, s, i) {
          var i :| OccursAt(t, s, i);
          assert i != 0;
          assert s[1..][i - 1..i - 1 + |t|] == s[i..i + |t|];
          assert OccursAt(t, s[1..], i - 1);
        }
      }
      rest
  }

  /** Python's `s.split(c)` for a one-character separator: the maximal pieces
      between occurrences of `c`. There is at least one piece, and no piece
      contains the separator. */
  function Split(s: string, c: char): (parts: seq<string>)
    ensures |parts| >= 1
    ensures forall k :: 0 <= k < |parts| ==> c !in parts[k]
    decreases |s|
  {
    if |s| == 0 then [""]
    else
      var rest := Split(s[1..], c);
      if s[0] == c then [""] + rest
      else
        assert c !in [s[0]] + rest[0];
        [[s[0]] + rest[0]] + rest[1..]
  }

  /** There is one more piece than there are separators. */
  lemma {:induction false} SplitCount(s: string, c: char)
    ensures |Split(s, c)| == multiset(s)[c] + 1
    decreases |s|
  {
    if |s| > 0 {
      SplitCount(s[1..], c);
      assert s == [s[0]] + s[1..];
    }
  }

  /** Python's `sep.join(parts)`: the result starts with the first piece, and
      it is at least as long as the pieces and separators it is made of. */
  function Join(parts: seq<string>, sep: string): (r: string)
    ensures |parts| >= 1 ==> parts[0] <= r
    ensures |parts| >= 1 ==> |r| >= (|parts| - 1) * |sep|
    decreases |parts|
  {
    if |parts| == 0 then ""
    else if |parts| == 1 then parts[0]
    else parts[0] + sep + Join(parts[1..], sep)
  }

  /** Python's `s.split(c)[-1]`: the text after the last `c`, or all of `s`.
      It never contains `c`, and a string without `c` is its own last segment. */
  function LastSegment(s: string, c: char): (r: string)
    ensures c !in r
    ensures c !in s ==> r == s
  {
    var parts := Split(s, c);
    assert c !in s ==> parts == [s] by {
      if c !in s {
        SplitNoSeparator(s, c);
      }
    }
    parts[|parts| - 1]
  }

  lemma {:induction false} SplitNoSeparator(s: string, c: char)
    requires c !in s
    ensures Split(s, c) == [s]
    decreases |s|
  {
    if |s| > 0 {
      SplitNoSeparator(s[1..], c);
      assert s == [s[0]] + s[1..];
    }
  }

  /** Splitting at a separator splits the two sides independently. */
  lemma {:induction false} SplitAround(a: string, b: string, c: char)
    ensures Split(a + [c] + b, c) == Split(a, c) + Split(b, c)
    decreases |a|
  {
    var s := a + [c] + b;
    if |a| == 0 {
      assert s[1..] == b;
    } else {
      assert s[1..] == a[1..] + [c] + b;
      SplitAround(a[1..], b, c);
    }
  }

  /** Joining the pieces of a split with the separator gives back the string. */
  lemma {:induction false} JoinSplit(s: string, c: char)
    ensures Join(Split(s, c), [c]) == s
    decreases |s|
  {
    if |s| > 0 {
      JoinSplit(s[1..], c);
      JoinSplitStep(s, c);
    }
  }

  lemma JoinSplitStep(s: string, c: char)
    requires |s| > 0
    requires Join(Split(s[1..], c), [c]) == s[1..]
    ensures Join(Split(s, c), [c]) == s
  {
    SplitCons(s, c);
    var rest := Split(s[1..], c);
    if s[0] == c {
      JoinSplitAtSeparator(s[1..], rest, c);
    } else if |rest| == 1 {
      JoinSplitLastPiece(s[0], s[1..], rest, c);
    } else {
      JoinSplitInPiece(s[0], s[1..], rest, c);
    }
    assert s == [s[0]] + s[1..];
  }

  lemma JoinSplitAtSeparator(tail: string, rest: seq<string>, c: char)
    requires |rest| >= 1 && Join(rest, [c]) == tail
    ensures Join([""] + rest, [c]) == [c] + tail
  {
    JoinCons("", rest, [c]);
  }

  lemma JoinSplitLastPiece(ch: char, tail: string, rest: seq<string>, c: char)
    requires |rest| == 1 && Join(rest, [c]) == tail
    ensures Join([[ch] + rest[0]], [c]) == [ch] + tail
  {
  }

  lemma JoinSplitInPiece(ch: char, tail: string, rest: seq<string>, c: char)
    requires |rest| >= 2 && Join(rest, [c]) == tail
    ensures Join([[ch] + rest[0]] + rest[1..], [c]) == [ch] + tail
  {
    JoinCons([ch] + rest[0], rest[1..], [c]);
    JoinCons(rest[0], rest[1..], [c]);
    assert rest == [rest[0]] + rest[1..];
  }

  /** One step of `Split`, taking the first character. */
  lemma SplitCons(s: string, c: char)
    requires |s| > 0
    ensures var rest := Split(s[1..], c);
      Split(s, c) == if s[0] == c then [""] + rest else [[s[0]] + rest[0]] + rest[1..]
  {
  }

  lemma JoinCons(head: string, tail: seq<string>, sep: string)
    requires |tail| >= 1
    ensures Join([head] + tail, sep) == head + sep + Join(tail, sep)
  {
    assert ([head] + tail)[1..] == tail;
  }

  /** Splitting a join of separator-free pieces gives back the pieces. */
  lemma {:induction false} SplitJoin(parts: seq<string>, c: char)
    requires |parts| >= 1
    requires forall k :: 0 <= k < |parts| ==> c !in parts[k]
    ensures Split(Join(parts, [c]), c) == parts
    decreases |parts|
  {
    SplitNoSeparator(parts[0], c);
    if |parts| > 1 {
      SplitJoin(parts[1..], c);
      SplitAround(parts[0], Join(parts[1..], [c]), c);
      assert [parts[0]] + parts[1..] == parts;
    }
  }

  /** The last segment is the suffix of `s` after its last separator: it has no
      separator in it, and it is either all of `s` (when `s` has no separator)
      or it is preceded by one. */
  lemma {:induction false} LastSegmentIsSuffix(s: string, c: char)
    ensures var r := LastSegment(s, c);
      && |r| <= |s|
      && s[|s| - |r|..] == r
      && c !in r
      && (c !in s ==> r == s)
      && (c in s ==> |r| < |s| && s[|s| - |r| - 1] == c)
    decreases |s|
  {
    var r := LastSegment(s, c);
    if |s| > 0 {
      LastSegmentIsSuffix(s[1..], c);
      SplitCount(s[1..], c);
      SplitCount(s, c);
      var rest := Split(s[1..], c);
      var r' := LastSegment(s[1..], c);
      assert s == [s[0]] + s[1..];
      assert multiset(s)[c] == multiset(s[1..])[c] + (if s[0] == c then 1 else 0);
      if s[0] != c && |rest| == 1 {
        assert c !in s[1..];
        assert r == [s[0]] + r';
      } else {
        assert r == r';
        if c !in s[1..] {
          assert s[0] == c;
        }
      }
    } else {
      SplitNoSeparator(s, c);
    }
  }

  /** A path whose head ends in the separator has the tail as its last segment. */
  lemma LastSegmentAfterSeparator(head: string, tail: string, c: char)
    requires |head| > 0 && head[|head| - 1] == c
    requires c !in tail
    ensures LastSegment(head + tail, c) == tail
  {
    var a := head[..|head| - 1];
    assert head + tail == a + [c] + tail;
    SplitAround(a, tail, c);
    SplitNoSeparator(tail, c);
  }

  /** Taking the last segment twice changes nothing. */
  lemma LastSegmentIdempotent(s: string, c: char)
    ensures LastSegment(LastSegment(s, c), c) == LastSegment(s, c)
  {
    LastSegmentIsSuffix(s, c);
    SplitNoSeparator(LastSegment(s, c), c);
  }

  /** The characters `str.strip()` removes from a Python 2 byte string. */
  predicate IsSpace(ch: char)
  {
    ch == ' ' || ch == '\t' || ch == '\n' || ch == '\r' || ch == '\U{000B}' || ch == '\U{000C}'
  }

  /** `s.lstrip()`: the suffix of `s` left after its leading whitespace. */
  function StripLeft(s: string): (r: string)
    ensures |r| <= |s| && r == s[|s| - |r|..]
    ensures forall k :: 0 <= k < |s| - |r| ==> IsSpace(s[k])
    ensures |r| > 0 ==> !IsSpace(r[0])
    decreases |s|
  {
    if |s| > 0 && IsSpace(s[0]) then StripLeft(s[1..]) else s
  }

  /** `s.rstrip()`: the prefix of `s` left before its trailing whitespace. */
  function StripRight(s: string): (r: string)
    ensures |r| <= |s| && r == s[..|r|]
    ensures forall k :: |r| <= k < |s| ==> IsSpace(s[k])
    ensures |r| > 0 ==> !IsSpace(r[|r| - 1])
    decreases |s|
  {
    if |s| > 0 && IsSpace(s[|s| - 1]) then StripRight(s[..|s| - 1]) else s
  }

  /** `s.strip()`: `s` without leading and trailing whitespace. The result is
      empty exactly when `s` is all whitespace, and otherwise starts and ends
      with a non-space character. */
  function Strip(s: string): (r: string)
    ensures |r| > 0 ==> !IsSpace(r[0]) && !IsSpace(r[|r| - 1])
    ensures r == [] <==> forall k :: 0 <= k < |s| ==> IsSpace(s[k])
  {
    var left := StripLeft(s);
    var r := StripRight(left);
    assert r == [] <==> forall k :: 0 <= k < |s| ==> IsSpace(s[k]) by {
      if r == [] {
        assert |left| == 0;
      } else {
        assert r[0] == left[0];
        assert !IsSpace(s[|s| - |left|]);
      }
    }
    r
  }

  /** What `strip` leaves is a piece of the string it was given: the piece
      that starts right after the leading whitespace. */
  lemma StripIsPiece(s: string)
    ensures OccursAt(Strip(s), s, |s| - |StripLeft(s)|)
    ensures Contains(s, Strip(s))
  {
    var left := StripLeft(s);
    var r := StripRight(left);
    var a := |s| - |left|;
    assert Strip(s) == r;
    assert s[a..][..|r|] == s[a..a + |r|];
    assert OccursAt(r, s, a);
  }

  /** Everything after the piece `strip` leaves is whitespace; with the
      contract of `StripLeft` for everything before it, only leading and
      trailing whitespace is removed. */
  lemma StripRemovesOnlyEnds(s: string)
    ensures forall k :: |s| - |StripLeft(s)| + |Strip(s)| <= k < |s| ==> IsSpace(s[k])
  {
    var left := StripLeft(s);
    var r := StripRight(left);
    var a := |s| - |left|;
    assert Strip(s) == r;
    assert left == s[a..];
    forall k | a + |r| <= k < |s| ensures IsSpace(s[k]) {
      assert |r| <= k - a < |left|;
      assert s[k] == left[k - a];
    }
  }

  /** A string with no whitespace at either end is left alone by `strip`. */
  lemma StripTrimmed(s: string)
    requires |s| > 0 ==> !IsSpace(s[0]) && !IsSpace(s[|s| - 1])
    ensures Strip(s) == s
  {
  }
}
