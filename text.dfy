/**
 * The Python string operations the task tools rely on, written out over
 * `seq<char>`: `str.isspace`, `str.strip`, `str.startswith`, `str.endswith`,
 * `in`, `str.split(sep)`, `sep.join`, `str.replace(p, "")`, `str.count`
 * and the decimal rendering of a natural number in an f-string.
 */
module Text {

  /** Python's `str.isspace` for one character (the Unicode white-space set). */
  predicate IsSpace(c: char) {
    var n := c as int;
    n == 32 || 9 <= n <= 13 || 28 <= n <= 31 || n == 0x85 || n == 0xA0 || n == 0x1680
    || 0x2000 <= n <= 0x200A || n == 0x2028 || n == 0x2029 || n == 0x202F
    || n == 0x205F || n == 0x3000
  }

  /** `s.startswith(p)` */
  predicate StartsWith(s: string, p: string) {
    |p| <= |s| && s[..|p|] == p
  }

  /** `s.endswith(p)` */
  predicate EndsWith(s: string, p: string) {
    |p| <= |s| && s[|s| - |p|..] == p
  }

  /** `p in s` */
  predicate Contains(s: string, p: string)
    decreases |s|
  {
    StartsWith(s, p) || (s != [] && Contains(s[1..], p))
  }

  /** A string with no white space at either end: what `strip` leaves. */
  predicate IsTrimmed(s: string) {
    s == [] || (!IsSpace(s[0]) && !IsSpace(s[|s| - 1]))
  }

  /** `s.lstrip()` */
  function TrimStart(s: string): (r: string)
    ensures |r| <= |s| && r == s[|s| - |r|..]
    ensures r != [] ==> !IsSpace(r[0])
    ensures forall i :: 0 <= i < |s| - |r| ==> IsSpace(s[i])
    decreases |s|
  {
    if s != [] && IsSpace(s[0]) then TrimStart(s[1..]) else s
  }

  /** `s.rstrip()` */
  function TrimEnd(s: string): (r: string)
    ensures |r| <= |s| && r == s[..|r|]
    ensures r != [] ==> !IsSpace(r[|r| - 1])
    ensures forall i :: |r| <= i < |s| ==> IsSpace(s[i])
    decreases |s|
  {
    if s != [] && IsSpace(s[|s| - 1]) then TrimEnd(s[..|s| - 1]) else s
  }

  /** `r` is the part of `s` at offset `i`, and everything around it is white space. */
  predicate SpaceAround(s: string, r: string, i: nat) {
    && i + |r| <= |s| && r == s[i..i + |r|]
    && (forall k {:trigger IsSpace(s[k])} :: 0 <= k < i ==> IsSpace(s[k]))
    && (forall k {:trigger IsSpace(s[k])} :: i + |r| <= k < |s| ==> IsSpace(s[k]))
  }

  /** `r` is `s` with white space, and only white space, cut off at either end. */
  ghost predicate IsSpaceTrimmedInfix(s: string, r: string) {
    exists i: nat :: SpaceAround(s, r, i)
  }

  /** `s.strip()`: the longest infix with no white space at either end. */
  function Strip(s: string): (r: string)
    ensures IsTrimmed(r)
    ensures |r| <= |s|
    ensures IsTrimmed(s) ==> r == s
  {
    TrimEnd(TrimStart(s))
  }

  /** A suffix `a` of `s` after white space, then a prefix `r` of `a` before white space: `r` sits in `s` between white space. */
  lemma SpaceAroundOfTrims(s: string, a: string, r: string)
    requires |a| <= |s| && a == s[|s| - |a|..] && forall k :: 0 <= k < |s| - |a| ==> IsSpace(s[k])
    requires |r| <= |a| && r == a[..|r|] && forall k :: |r| <= k < |a| ==> IsSpace(a[k])
    ensures SpaceAround(s, r, |s| - |a|)
  {
    var i := |s| - |a|;
    assert r == s[i..i + |r|] by {
      assert s[i..][..|r|] == s[i..i + |r|];
    }
    forall k | i + |r| <= k < |s|
      ensures IsSpace(s[k])
    {
      assert s[k] == a[k - i];
    }
  }

  /** `strip` cuts white space, and nothing else, off either end: the text in between survives. */
  lemma StripCutsOnlySpace(s: string)
    ensures IsSpaceTrimmedInfix(s, Strip(s))
  {
    var a := TrimStart(s);
    SpaceAroundOfTrims(s, a, TrimEnd(a));
  }

  lemma StripIdempotent(s: string)
    ensures Strip(Strip(s)) == Strip(s)
  {
  }

  /** White space in front of a string never survives `strip`. */
  lemma StripLeadingSpace(c: char, s: string)
    requires IsSpace(c)
    ensures Strip([c] + s) == Strip(s)
  {
    assert ([c] + s)[1..] == s;
  }

  /** `s.split(sep)` for a non-empty separator: occurrences are found left to right and do not overlap. */
  function SplitOn(s: string, sep: string): (r: seq<string>)
    requires sep != []
    ensures |r| >= 1
    decreases |s|
  {
    if |s| < |sep| then [s]
    else if s[..|sep|] == sep then [""] + SplitOn(s[|sep|..], sep)
    else
      var rest := SplitOn(s[1..], sep);
      [[s[0]] + rest[0]] + rest[1..]
  }

  /** `sep.join(xs)` */
  function JoinWith(sep: string, xs: seq<string>): string
    decreases |xs|
  {
    if xs == [] then "" else if |xs| == 1 then xs[0] else xs[0] + sep + JoinWith(sep, xs[1..])
  }

  /** `s.count(p)` for a non-empty pattern: non-overlapping occurrences, left to right. */
  function Count(s: string, p: string): nat
    requires p != []
    decreases |s|
  {
    if |s| < |p| then 0
    else if s[..|p|] == p then 1 + Count(s[|p|..], p)
    else Count(s[1..], p)
  }

  /** `s.replace(p, "")` for a non-empty pattern. */
  function RemoveAll(s: string, p: string): (r: string)
    requires p != []
    ensures |r| <= |s|
    decreases |s|
  {
    if |s| < |p| then s
    else if s[..|p|] == p then RemoveAll(s[|p|..], p)
    else [s[0]] + RemoveAll(s[1..], p)
  }

  // ---------------------------------------------------------------------------
  // split / join

  lemma JoinCons(sep: string, x: string, xs: seq<string>)
    requires xs != []
    ensures JoinWith(sep, [x] + xs) == x + sep + JoinWith(sep, xs)
  {
    assert ([x] + xs)[1..] == xs;
  }

  /** Prepending a character to the first item prepends it to the join. */
  lemma JoinPrependHead(sep: string, c: char, xs: seq<string>)
    requires xs != []
    ensures JoinWith(sep, [[c] + xs[0]] + xs[1..]) == [c] + JoinWith(sep, xs)
  {
    if |xs| > 1 {
      JoinCons(sep, [c] + xs[0], xs[1..]);
      JoinCons(sep, xs[0], xs[1..]);
      assert [xs[0]] + xs[1..] == xs;
    }
  }

  /** Joining the pieces of a split with the same separator gives back the string. */
  lemma {:induction false} JoinSplit(s: string, sep: string)
    requires sep != []
    ensures JoinWith(sep, SplitOn(s, sep)) == s
    decreases |s|
  {
    if |s| < |sep| {
    } else if s[..|sep|] == sep {
      var tail := s[|sep|..];
      var rest := SplitOn(tail, sep);
      calc {
        JoinWith(sep, SplitOn(s, sep));
        JoinWith(sep, [""] + rest);
        { JoinCons(sep, "", rest); }
        "" + sep + JoinWith(sep, rest);
        { JoinSplit(tail, sep); }
        "" + sep + tail;
        s;
      }
    } else {
      var rest := SplitOn(s[1..], sep);
      calc {
        JoinWith(sep, SplitOn(s, sep));
        JoinWith(sep, [[s[0]] + rest[0]] + rest[1..]);
        { JoinPrependHead(sep, s[0], rest); }
        [s[0]] + JoinWith(sep, rest);
        { JoinSplit(s[1..], sep); }
        [s[0]] + s[1..];
        s;
      }
    }
  }

  /** The first piece of a split is a prefix of the string. */
  lemma {:induction false} SplitFirstIsPrefix(s: string, sep: string)
    requires sep != []
    ensures StartsWith(s, SplitOn(s, sep)[0])
    decreases |s|
  {
    if |s| < |sep| {
    } else if s[..|sep|] == sep {
    } else {
      SplitFirstIsPrefix(s[1..], sep);
      var r0 := SplitOn(s[1..], sep)[0];
      assert s[..1 + |r0|] == [s[0]] + s[1..][..|r0|];
    }
  }

  /** A string without the separator splits into itself alone, and only such a string does. */
  lemma {:induction false} SplitSingle(s: string, sep: string)
    requires sep != []
    ensures |SplitOn(s, sep)| == 1 <==> !Contains(s, sep)
    ensures !Contains(s, sep) ==> SplitOn(s, sep) == [s]
    decreases |s|
  {
    if |s| < |sep| {
      assert !StartsWith(s, sep);
      if s != [] {
        SplitSingle(s[1..], sep);
      }
    } else if s[..|sep|] == sep {
      assert StartsWith(s, sep);
    } else {
      SplitSingle(s[1..], sep);
      assert s == [s[0]] + s[1..];
    }
  }

  /** The number of pieces is one more than the number of occurrences. */
  lemma {:induction false} SplitCount(s: string, sep: string)
    requires sep != []
    ensures |SplitOn(s, sep)| == Count(s, sep) + 1
    decreases |s|
  {
    if |s| < |sep| {
    } else if s[..|sep|] == sep {
      SplitCount(s[|sep|..], sep);
    } else {
      SplitCount(s[1..], sep);
    }
  }

  /** No piece of a split contains the separator. */
  lemma {:induction false} SplitPiecesFree(s: string, sep: string)
    requires sep != []
    ensures forall k :: 0 <= k < |SplitOn(s, sep)| ==> !Contains(SplitOn(s, sep)[k], sep)
    decreases |s|
  {
    if |s| < |sep| {
      SplitSingle(s, sep);
    } else if s[..|sep|] == sep {
      SplitPiecesFree(s[|sep|..], sep);
      assert !Contains("", sep);
    } else {
      var rest := SplitOn(s[1..], sep);
      SplitPiecesFree(s[1..], sep);
      SplitFirstIsPrefix(s[1..], sep);
      var head := [s[0]] + rest[0];
      assert head[1..] == rest[0];
      assert !Contains(head, sep);
      var r := SplitOn(s, sep);
      forall k | 0 <= k < |r|
        ensures !Contains(r[k], sep)
      {
        if k > 0 {
          assert r[k] == rest[k];
        }
      }
    }
  }

  /** Splitting on a single character that does not occur in `a`. */
  lemma {:induction false} SplitAtFirstChar(a: string, c: char, b: string)
    requires c !in a
    ensures SplitOn(a + [c] + b, [c]) == [a] + SplitOn(b, [c])
    decreases |a|
  {
    var s := a + [c] + b;
    if a == [] {
      assert s[..1] == [c];
      assert s[1..] == b;
    } else {
      assert s[0] == a[0] && a[0] != c;
      assert s[..1] != [c];
      assert s[1..] == a[1..] + [c] + b;
      SplitAtFirstChar(a[1..], c, b);
      assert [a[0]] + a[1..] == a;
    }
  }

  /** A single-character split of a string that lacks the character. */
  lemma {:induction false} SplitWithoutChar(s: string, c: char)
    requires c !in s
    ensures SplitOn(s, [c]) == [s]
    decreases |s|
  {
    if s != [] {
      assert s[0] != c;
      assert s[..1] != [c];
      SplitWithoutChar(s[1..], c);
      assert [s[0]] + s[1..] == s;
    }
  }

  /** Split undoes join when the separator character occurs in no item. */
  lemma {:induction false} SplitJoinChar(xs: seq<string>, c: char)
    requires xs != []
    requires forall k :: 0 <= k < |xs| ==> c !in xs[k]
    ensures SplitOn(JoinWith([c], xs), [c]) == xs
    decreases |xs|
  {
    if |xs| == 1 {
      SplitWithoutChar(xs[0], c);
    } else {
      SplitAtFirstChar(xs[0], c, JoinWith([c], xs[1..]));
      SplitJoinChar(xs[1..], c);
      assert [xs[0]] + xs[1..] == xs;
    }
  }

  /** A character that is neither in the separator nor in any item is not in the join. */
  lemma {:induction false} JoinAvoidsChar(sep: string, xs: seq<string>, c: char)
    requires c !in sep
    requires forall k :: 0 <= k < |xs| ==> c !in xs[k]
    ensures c !in JoinWith(sep, xs)
    decreases |xs|
  {
    if |xs| > 1 {
      JoinAvoidsChar(sep, xs[1..], c);
    }
  }

  /** A character missing from a string is missing from every piece of its split. */
  lemma {:induction false} SplitPiecesAvoid(s: string, sep: string, d: char)
    requires sep != [] && d !in s
    ensures forall k :: 0 <= k < |SplitOn(s, sep)| ==> d !in SplitOn(s, sep)[k]
    decreases |s|
  {
    if |s| < |sep| {
    } else if s[..|sep|] == sep {
      SplitPiecesAvoid(s[|sep|..], sep, d);
    } else {
      SplitPiecesAvoid(s[1..], sep, d);
    }
  }

  /** No piece of a split on one character holds that character. */
  lemma {:induction false} SplitOnCharPieces(s: string, c: char)
    ensures forall k :: 0 <= k < |SplitOn(s, [c])| ==> c !in SplitOn(s, [c])[k]
    decreases |s|
  {
    if |s| < 1 {
    } else if s[..1] == [c] {
      SplitOnCharPieces(s[1..], c);
    } else {
      assert s[0] != c;
      SplitOnCharPieces(s[1..], c);
    }
  }

  /** `strip` adds no character. */
  lemma StripAvoids(s: string, d: char)
    requires d !in s
    ensures d !in Strip(s)
  {
    var a := TrimStart(s);
    assert a == s[|s| - |a|..];
    assert d !in a;
    var b := TrimEnd(a);
    assert b == a[..|b|];
    assert Strip(s) == b;
  }

  /** `s.replace(p, "")` equals `"".join(s.split(p))`. */
  lemma {:induction false} RemoveAllIsSplitJoin(s: string, p: string)
    requires p != []
    ensures RemoveAll(s, p) == JoinWith("", SplitOn(s, p))
    decreases |s|
  {
    if |s| < |p| {
    } else if s[..|p|] == p {
      RemoveAllIsSplitJoin(s[|p|..], p);
      JoinCons("", "", SplitOn(s[|p|..], p));
    } else {
      var rest := SplitOn(s[1..], p);
      RemoveAllIsSplitJoin(s[1..], p);
      if |rest| > 1 {
        JoinCons("", rest[0], rest[1..]);
        JoinCons("", [s[0]] + rest[0], rest[1..]);
        assert [rest[0]] + rest[1..] == rest;
      }
    }
  }

  /** Removal leaves a string that never had the pattern untouched. */
  lemma {:induction false} RemoveAllAbsent(s: string, p: string)
    requires p != [] && !Contains(s, p)
    ensures RemoveAll(s, p) == s
  {
    SplitSingle(s, p);
    RemoveAllIsSplitJoin(s, p);
  }

  // ---------------------------------------------------------------------------
  // decimal numbers, as `f"{i}"` renders them

  function DigitChar(d: nat): char
    requires d < 10
  {
    ('0' as int + d) as char
  }

  predicate IsDigit(c: char) {
    '0' <= c <= '9'
  }

  /** Decimal rendering of a natural number. */
  function NatToString(n: nat): (r: string)
    ensures r != []
    ensures forall k :: 0 <= k < |r| ==> IsDigit(r[k])
    ensures r[0] == '0' ==> n == 0
  {
    if n < 10 then [DigitChar(n)] else NatToString(n / 10) + [DigitChar(n % 10)]
  }

  /** The value of a string of decimal digits. */
  function DecimalValue(s: string): nat
    requires forall k :: 0 <= k < |s| ==> IsDigit(s[k])
  {
    if s == [] then 0
    else
      var last := s[|s| - 1];
      assert IsDigit(last);
      10 * DecimalValue(s[..|s| - 1]) + (last as int - '0' as int)
  }

  lemma {:induction false} DecimalRoundTrip(n: nat)
    ensures DecimalValue(NatToString(n)) == n
  {
    var r := NatToString(n);
    if n >= 10 {
      DecimalRoundTrip(n / 10);
      assert r[..|r| - 1] == NatToString(n / 10);
    }
  }

  /** Different numbers render differently. */
  lemma NatToStringInjective(a: nat, b: nat)
    requires NatToString(a) == NatToString(b)
    ensures a == b
  {
    DecimalRoundTrip(a);
    DecimalRoundTrip(b);
  }
}
