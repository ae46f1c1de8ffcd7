/**
 * The .NET string primitives the cleaner relies on, over `string` (= `seq<char>`):
 * `char.IsWhiteSpace`, `string.IsNullOrWhiteSpace`, `TrimStart(params char[])`,
 * `Trim()`, `Split(char)` and `EndsWith(_, StringComparison.OrdinalIgnoreCase)`.
 */
module Text {

  /** Exactly the characters for which .NET's `char.IsWhiteSpace` is true:
      U+0009..U+000D, U+0085 and the Unicode space, line and paragraph separators. */
  const WhiteSpace: set<char> :=
    {'\t', '\n', '\U{B}', '\U{C}', '\r', ' ', '\U{85}', '\U{A0}', '\U{1680}',
     '\U{2000}', '\U{2001}', '\U{2002}', '\U{2003}', '\U{2004}', '\U{2005}',
     '\U{2006}', '\U{2007}', '\U{2008}', '\U{2009}', '\U{200A}',
     '\U{2028}', '\U{2029}', '\U{202F}', '\U{205F}', '\U{3000}'}

  /** Every character of `s` belongs to `chars`. */
  predicate AllIn(s: string, chars: set<char>) {
    forall i :: 0 <= i < |s| ==> s[i] in chars
  }

  /** `string.IsNullOrWhiteSpace` for a non-null string: every character is white space. */
  predicate IsBlank(s: string) {
    AllIn(s, WhiteSpace)
  }

  /** `s.TrimStart(chars)`: drops EVERY leading character that belongs to `drop`. */
  function TrimStart(s: string, drop: set<char>): (r: string)
    ensures |r| <= |s| && r == s[|s| - |r|..]
    ensures forall i :: 0 <= i < |s| - |r| ==> s[i] in drop
    ensures |r| > 0 ==> r[0] !in drop
    decreases |s|
  {
    if |s| > 0 && s[0] in drop then TrimStart(s[1..], drop) else s
  }

  /** Characters of `drop` in front of `s` are all trimmed, whatever `s` is. */
  lemma {:induction false} TrimStartPrefix(p: string, s: string, drop: set<char>)
    requires forall i :: 0 <= i < |p| ==> p[i] in drop
    ensures TrimStart(p + s, drop) == TrimStart(s, drop)
    decreases |p|
  {
    if |p| > 0 {
      assert (p + s)[0] == p[0];
      assert (p + s)[1..] == p[1..] + s;
      TrimStartPrefix(p[1..], s, drop);
    } else {
      assert p + s == s;
    }
  }

  /** Text appended after a character that is not trimmed survives trimming unchanged. */
  lemma {:induction false} TrimStartAppend(s: string, x: string, drop: set<char>)
    requires |x| > 0 && x[0] !in drop
    ensures TrimStart(s + x, drop) == TrimStart(s, drop) + x
    decreases |s|
  {
    if |s| == 0 {
      assert s + x == x;
    } else {
      assert (s + x)[0] == s[0];
      assert (s + x)[1..] == s[1..] + x;
      if s[0] in drop {
        TrimStartAppend(s[1..], x, drop);
      }
    }
  }

  /** Drops every trailing character that belongs to `drop`. */
  function TrimEnd(s: string, drop: set<char>): (r: string)
    ensures |r| <= |s| && r == s[..|r|]
    ensures forall i :: |r| <= i < |s| ==> s[i] in drop
    ensures |r| > 0 ==> r[|r| - 1] !in drop
    decreases |s|
  {
    if |s| > 0 && s[|s| - 1] in drop then TrimEnd(s[..|s| - 1], drop) else s
  }

  /** `s` without its leading and trailing characters from `drop`. It is empty exactly
      when all of `s` belongs to `drop`, and otherwise starts and ends outside `drop`. */
  function TrimBoth(s: string, drop: set<char>): (r: string)
    ensures |r| <= |s|
    ensures |r| == 0 <==> AllIn(s, drop)
    ensures |r| > 0 ==> r[0] !in drop && r[|r| - 1] !in drop
  {
    var front := TrimStart(s, drop);
    var r := TrimEnd(front, drop);
    assert |r| == 0 ==> AllIn(s, drop) by {
      if |r| == 0 {
        assert |front| == 0;
      }
    }
    r
  }

  /** `s.Trim()`: `s` without its leading and trailing white space. */
  function Trim(s: string): (r: string)
    ensures |r| <= |s|
    ensures |r| == 0 <==> IsBlank(s)
    ensures |r| > 0 ==> r[0] !in WhiteSpace && r[|r| - 1] !in WhiteSpace
  {
    TrimBoth(s, WhiteSpace)
  }

  /** `r` is the slice of `s` that starts at `i`, and everything of `s` before and
      after it belongs to `drop`. */
  predicate Framed(s: string, r: string, i: nat, drop: set<char>) {
    i + |r| <= |s| && r == s[i..i + |r|] && AllIn(s[..i], drop) && AllIn(s[i + |r|..], drop)
  }

  /** Cutting characters of `drop` off the front of `s` and then off the back leaves a
      slice of `s` framed by characters of `drop`. */
  lemma {:induction false} SliceAfterCuts(s: string, front: string, r: string, drop: set<char>)
    requires |front| <= |s| && front == s[|s| - |front|..]
    requires forall k :: 0 <= k < |s| - |front| ==> s[k] in drop
    requires |r| <= |front| && r == front[..|r|]
    requires forall k :: |r| <= k < |front| ==> front[k] in drop
    ensures Framed(s, r, |s| - |front|, drop)
  {
    var i := |s| - |front|;
    var head := s[..i];
    forall k | 0 <= k < |head|
      ensures head[k] in drop
    {
      assert head[k] == s[k];
    }
    var tail := s[i + |r|..];
    forall k | 0 <= k < |tail|
      ensures tail[k] in drop
    {
      assert tail[k] == front[|r| + k];
    }
  }

  /** `TrimBoth` returns a slice of its input, starting at `i`, and cuts nothing but
      characters of `drop` off either side of it. */
  lemma {:induction false} TrimBothSlice(s: string, drop: set<char>) returns (i: nat)
    ensures Framed(s, TrimBoth(s, drop), i, drop)
  {
    var front := TrimStart(s, drop);
    var r := TrimEnd(front, drop);
    SliceAfterCuts(s, front, r, drop);
    i := |s| - |front|;
    assert TrimBoth(s, drop) == r;
  }

  /** `Trim` returns a slice of its input and cuts nothing but white space off either
      side of it. */
  lemma {:induction false} TrimSlice(s: string) returns (i: nat)
    ensures Framed(s, Trim(s), i, WhiteSpace)
  {
    i := TrimBothSlice(s, WhiteSpace);
  }

  /** Upper-casing restricted to ASCII letters. */
  function UpperAscii(c: char): (u: char)
    ensures 'a' <= c <= 'z' ==> u as int == c as int - 32
    ensures !('a' <= c <= 'z') ==> u == c
  {
    if 'a' <= c <= 'z' then (c as int - 32) as char else c
  }

  /** `s.EndsWith(suffix, StringComparison.OrdinalIgnoreCase)`, with case folded on ASCII letters. */
  predicate EndsWithIgnoreCase(s: string, suffix: string) {
    |suffix| <= |s| &&
    forall i :: 0 <= i < |suffix| ==> UpperAscii(s[|s| - |suffix| + i]) == UpperAscii(suffix[i])
  }

  /** Number of occurrences of `c` in `s`. */
  function Occurrences(s: string, c: char): nat {
    if |s| == 0 then 0
    else Occurrences(s[..|s| - 1], c) + (if s[|s| - 1] == c then 1 else 0)
  }

  /** `c` occurs in `s` exactly when it is counted at least once. */
  lemma {:induction false} OccurrencesPositive(s: string, c: char)
    ensures Occurrences(s, c) > 0 <==> c in s
    decreases |s|
  {
    if |s| > 0 {
      var init := s[..|s| - 1];
      OccurrencesPositive(init, c);
      assert s == init + [s[|s| - 1]];
    }
  }

  /** `s.Split(sep)`, read left to right: a separator opens a new, empty last piece, any
      other character extends the last piece. There is one more piece than there are
      separators. */
  function Split(s: string, sep: char): (r: seq<string>)
    ensures |r| == Occurrences(s, sep) + 1
    decreases |s|
  {
    if |s| == 0 then [""]
    else
      var p := Split(s[..|s| - 1], sep);
      var c := s[|s| - 1];
      if c == sep then p + [""] else p[..|p| - 1] + [p[|p| - 1] + [c]]
  }

  /** `string.Join(sep, parts)`. */
  function Join(parts: seq<string>, sep: char): string
    requires |parts| > 0
  {
    if |parts| == 1 then parts[0] else Join(parts[..|parts| - 1], sep) + [sep] + parts[|parts| - 1]
  }

  /** Split, unfolded once at a string that ends in `c`. */
  lemma {:induction false} SplitSnoc(s: string, c: char, sep: char)
    ensures var p := Split(s, sep);
            Split(s + [c], sep) ==
              if c == sep then p + [""] else p[..|p| - 1] + [p[|p| - 1] + [c]]
  {
    assert (s + [c])[..|s|] == s;
  }

  /** No piece of a split contains the separator. */
  lemma {:induction false} SplitPiecesFree(s: string, sep: char)
    ensures forall i :: 0 <= i < |Split(s, sep)| ==> sep !in Split(s, sep)[i]
    decreases |s|
  {
    if |s| > 0 {
      var p := Split(s[..|s| - 1], sep);
      SplitPiecesFree(s[..|s| - 1], sep);
      var c := s[|s| - 1];
      if c != sep {
        var last := p[|p| - 1];
        assert sep !in last;
        assert sep !in last + [c];
      }
    }
  }

  /** A string without the separator is a single piece. */
  lemma {:induction false} SplitWithoutSeparator(s: string, sep: char)
    requires sep !in s
    ensures Split(s, sep) == [s]
  {
    OccurrencesPositive(s, sep);
    SplitJoin(s, sep);
  }

  /** Splitting loses nothing: joining the pieces back gives the original string. */
  lemma {:induction false} SplitJoin(s: string, sep: char)
    ensures Join(Split(s, sep), sep) == s
    decreases |s|
  {
    if |s| > 0 {
      var init := s[..|s| - 1];
      var c := s[|s| - 1];
      var p := Split(init, sep);
      SplitJoin(init, sep);
      assert s == init + [c];
      if c == sep {
        assert (p + [""])[..|p|] == p;
      } else {
        JoinExtendLast(p, c, sep);
      }
    }
  }

  /** Extending the last piece extends the joined string. */
  lemma {:induction false} JoinExtendLast(p: seq<string>, c: char, sep: char)
    requires |p| > 0
    ensures Join(p[..|p| - 1] + [p[|p| - 1] + [c]], sep) == Join(p, sep) + [c]
  {
    var q := p[..|p| - 1] + [p[|p| - 1] + [c]];
    if |p| > 1 {
      assert q[..|q| - 1] == p[..|p| - 1];
      AppendAssoc(Join(p[..|p| - 1], sep) + [sep], p[|p| - 1], [c]);
    }
  }

  /** The separator splits a concatenation into the pieces of both halves. */
  lemma {:induction false} SplitConcat(a: string, b: string, sep: char)
    ensures Split(a + [sep] + b, sep) == Split(a, sep) + Split(b, sep)
    decreases |b|
  {
    if |b| == 0 {
      assert a + [sep] + b == a + [sep];
      SplitSnoc(a, sep, sep);
    } else {
      var init := b[..|b| - 1];
      var c := b[|b| - 1];
      assert b == init + [c];
      assert a + [sep] + b == (a + [sep] + init) + [c];
      SplitConcat(a, init, sep);
      SplitSnoc(a + [sep] + init, c, sep);
      SplitSnoc(init, c, sep);
      var x := Split(a, sep);
      var y := Split(init, sep);
      if c == sep {
        AppendAssoc(x, y, [""]);
      } else {
        ReplaceLastAppend(x, y, y[|y| - 1] + [c]);
      }
    }
  }

  /** Concatenation is associative (stated for an arbitrary element type, so that no
      element-wise comparison is needed where it is used). */
  lemma {:induction false} AppendAssoc<T>(a: seq<T>, b: seq<T>, c: seq<T>)
    ensures a + (b + c) == (a + b) + c
  {
  }

  /** Replacing the last element of a concatenation replaces the last element of its
      right part. */
  lemma {:induction false} ReplaceLastAppend<T>(x: seq<T>, y: seq<T>, z: T)
    requires |y| > 0
    ensures (x + y)[|x + y| - 1] == y[|y| - 1]
    ensures (x + y)[..|x + y| - 1] + [z] == x + (y[..|y| - 1] + [z])
  {
  }
}
