/**
 * GitHubUpdater.CompareVersions and its helper ParseVersionParts: a three-way
 * comparison of dotted version strings such as "v1.2.3".
 *
 * Each string loses all its leading 'v'/'V' characters, is cut at '.' into at most
 * four segments whose digits accumulate into a C# `int` (with unchecked 32-bit
 * wrap-around), and the two zero-padded segment vectors are compared left to right.
 */
module VersionCompare {
  import opened Text

  /** Length of the stack buffer each version is parsed into (`stackalloc int[4]`). */
  const MaxParts: nat := 4

  /** The characters `TrimStart(['v', 'V'])` removes. */
  const VersionPrefix: set<char> := {'v', 'V'}

  const Two31: int := 0x8000_0000
  const Two32: int := 0x1_0000_0000

  /** Unchecked C# `int` arithmetic: the mathematical result reduced into [-2^31, 2^31). */
  function Wrap32(x: int): (r: int)
    ensures -Two31 <= r < Two31
    ensures (x - r) % Two32 == 0
    ensures -Two31 <= x < Two31 ==> r == x
  {
    var m := x % Two32;
    if m >= Two31 then m - Two32 else m
  }

  /** Two integers that agree modulo 2^32 wrap to the same `int`. */
  lemma {:induction false} Wrap32Congruent(x: int, y: int, k: int)
    requires x == y + k * Two32
    ensures Wrap32(x) == Wrap32(y)
  {
    assert x % Two32 == y % Two32;
  }

  /** ASCII decimal digits: what `char.IsDigit` accepts among ASCII characters. */
  predicate IsDigit(c: char) {
    '0' <= c <= '9'
  }

  function DigitValue(c: char): (d: int)
    requires IsDigit(c)
    ensures 0 <= d <= 9
  {
    c as int - '0' as int
  }

  /** The value ParseVersionParts accumulates for one segment: each digit does
      `currentValue = currentValue * 10 + (c - '0')` in `int` arithmetic, every other
      character is skipped. */
  function SegmentValue(seg: string): int
  {
    if |seg| == 0 then 0
    else
      var v := SegmentValue(seg[..|seg| - 1]);
      var c := seg[|seg| - 1];
      if IsDigit(c) then Wrap32(v * 10 + DigitValue(c)) else v
  }

  /** Reference reading of a segment: the decimal number its digits spell, unbounded. */
  function DecimalValue(seg: string): (n: nat)
  {
    if |seg| == 0 then 0
    else
      var c := seg[|seg| - 1];
      if IsDigit(c) then DecimalValue(seg[..|seg| - 1]) * 10 + DigitValue(c)
      else DecimalValue(seg[..|seg| - 1])
  }

  /** A segment's `int` value is its decimal value wrapped into 32 bits. */
  lemma {:induction false} SegmentValueWraps(seg: string)
    ensures SegmentValue(seg) == Wrap32(DecimalValue(seg))
    decreases |seg|
  {
    if |seg| > 0 {
      var init := seg[..|seg| - 1];
      var c := seg[|seg| - 1];
      SegmentValueWraps(init);
      if IsDigit(c) {
        var v := SegmentValue(init);
        var n := DecimalValue(init);
        var k := (n - v) / Two32;
        assert n == v + k * Two32;
        Wrap32Congruent(n * 10 + DigitValue(c), v * 10 + DigitValue(c), 10 * k);
      }
    }
  }

  /** Below 2^31 there is no wrap-around: the segment value is the decimal number. */
  lemma {:induction false} SegmentValueExact(seg: string)
    requires DecimalValue(seg) < Two31
    ensures SegmentValue(seg) == DecimalValue(seg)
  {
    SegmentValueWraps(seg);
  }

  /** The values of a run of pieces, in order. */
  function SegmentValues(pieces: seq<string>): (r: seq<int>)
    ensures |r| == |pieces|
    ensures forall i :: 0 <= i < |pieces| ==> r[i] == SegmentValue(pieces[i])
  {
    if |pieces| == 0 then []
    else SegmentValues(pieces[..|pieces| - 1]) + [SegmentValue(pieces[|pieces| - 1])]
  }

  /** The segment values ParseVersionParts writes into its buffer: one per
      '.'-separated piece, and only the first four pieces. */
  function Parts(version: string): (r: seq<int>)
    ensures 1 <= |r| <= MaxParts
  {
    var pieces := Split(version, '.');
    SegmentValues(if |pieces| <= MaxParts then pieces else pieces[..MaxParts])
  }

  /** What the scan of ParseVersionParts knows after reading `prefix`: the buffer holds
      the values of the completed pieces that fit, zeros after them, and `current` is
      the value of the piece still open. */
  ghost predicate Scanned(prefix: string, parts: seq<int>, partIndex: int, current: int)
  {
    var pieces := Split(prefix, '.');
    && |parts| == MaxParts
    && partIndex == (if |pieces| - 1 < MaxParts then |pieces| - 1 else MaxParts)
    && (forall i :: 0 <= i < partIndex ==> parts[i] == SegmentValue(pieces[i]))
    && (forall i :: partIndex <= i < MaxParts ==> parts[i] == 0)
    && current == SegmentValue(pieces[|pieces| - 1])
  }

  /** A '.' closes the open piece, which is stored while the buffer has room. */
  lemma {:induction false} ScanDot(version: string, k: nat, parts: seq<int>, partIndex: int, current: int)
    requires k < |version| && version[k] == '.'
    requires Scanned(version[..k], parts, partIndex, current)
    ensures partIndex < MaxParts ==>
              Scanned(version[..k + 1], parts[partIndex := current], partIndex + 1, 0)
    ensures partIndex >= MaxParts ==> Scanned(version[..k + 1], parts, partIndex, 0)
  {
    assert version[..k + 1] == version[..k] + ['.'];
    ScanClose(version[..k], parts, partIndex, current);
  }

  /** ScanDot, for the text read so far. */
  lemma {:induction false} ScanClose(prefix: string, parts: seq<int>, partIndex: int, current: int)
    requires Scanned(prefix, parts, partIndex, current)
    ensures partIndex < MaxParts ==>
              Scanned(prefix + ['.'], parts[partIndex := current], partIndex + 1, 0)
    ensures partIndex >= MaxParts ==> Scanned(prefix + ['.'], parts, partIndex, 0)
  {
    SplitSnoc(prefix, '.', '.');
    var pieces := Split(prefix, '.');
    assert Split(prefix + ['.'], '.') == pieces + [""];
  }

  /** Any other character only changes the open piece. */
  lemma {:induction false} ScanOther(version: string, k: nat, parts: seq<int>, partIndex: int, current: int)
    requires k < |version| && version[k] != '.'
    requires Scanned(version[..k], parts, partIndex, current)
    ensures IsDigit(version[k]) ==>
              Scanned(version[..k + 1], parts, partIndex, Wrap32(current * 10 + DigitValue(version[k])))
    ensures !IsDigit(version[k]) ==> Scanned(version[..k + 1], parts, partIndex, current)
  {
    var c := version[k];
    assert version[..k + 1] == version[..k] + [c];
    ScanExtend(version[..k], c, parts, partIndex, current);
    var pieces := Split(version[..k], '.');
    SegmentValueSnoc(pieces[|pieces| - 1], c);
  }

  /** ScanOther, for the text read so far: the open piece grows by `c`. */
  lemma {:induction false} ScanExtend(prefix: string, c: char, parts: seq<int>, partIndex: int, current: int)
    requires c != '.' && Scanned(prefix, parts, partIndex, current)
    ensures var pieces := Split(prefix, '.');
            Scanned(prefix + [c], parts, partIndex, SegmentValue(pieces[|pieces| - 1] + [c]))
  {
    SplitSnoc(prefix, c, '.');
    var pieces := Split(prefix, '.');
    var pieces' := Split(prefix + [c], '.');
    assert |pieces'| == |pieces|;
    assert forall i :: 0 <= i < |pieces| - 1 ==> pieces'[i] == pieces[i];
  }

  /** SegmentValue, unfolded once at a segment that ends in `c`. */
  lemma {:induction false} SegmentValueSnoc(seg: string, c: char)
    ensures SegmentValue(seg + [c])
              == if IsDigit(c) then Wrap32(SegmentValue(seg) * 10 + DigitValue(c)) else SegmentValue(seg)
  {
    assert (seg + [c])[..|seg|] == seg;
  }

  /** Nothing read yet: no piece completed, an empty buffer, an open piece of value 0. */
  lemma {:induction false} ScanStart(version: string)
    ensures Scanned(version[..0], [0, 0, 0, 0], 0, 0)
  {
    assert version[..0] == "";
  }

  /** The final flush leaves exactly Parts(version) in the buffer, zeros behind it. */
  lemma {:induction false} ScanFinish(version: string, parts: seq<int>, partIndex: int, current: int,
                                      finalParts: seq<int>, count: int)
    requires Scanned(version[..|version|], parts, partIndex, current)
    requires partIndex < MaxParts ==> finalParts == parts[partIndex := current] && count == partIndex + 1
    requires partIndex >= MaxParts ==> finalParts == parts && count == partIndex
    ensures |finalParts| == MaxParts
    ensures 1 <= count <= MaxParts
    ensures finalParts[..count] == Parts(version)
    ensures forall i :: count <= i < MaxParts ==> finalParts[i] == 0
  {
    assert version[..|version|] == version;
  }

  /** `ParseVersionParts(version, parts)`: a character-by-character scan that flushes the
      running value into the buffer at each '.', while the buffer has room, and once more
      at the end. The buffer starts zeroed, as `stackalloc` memory does. */
  method ParseVersionParts(version: string) returns (parts: seq<int>, count: int)
    ensures |parts| == MaxParts
    ensures 1 <= count <= MaxParts
    ensures parts[..count] == Parts(version)
    ensures forall i :: count <= i < MaxParts ==> parts[i] == 0
  {
    parts := [0, 0, 0, 0];
    var partIndex := 0;
    var currentValue := 0;
    ScanStart(version);
    var k := 0;
    while k < |version|
      invariant 0 <= k <= |version|
      invariant |parts| == MaxParts && 0 <= partIndex <= MaxParts
      invariant Scanned(version[..k], parts, partIndex, currentValue)
    {
      var c := version[k];
      if c == '.' {
        ScanDot(version, k, parts, partIndex, currentValue);
        if partIndex < MaxParts {
          parts := parts[partIndex := currentValue];
          partIndex := partIndex + 1;
        }
        currentValue := 0;
      } else {
        ScanOther(version, k, parts, partIndex, currentValue);
        if IsDigit(c) {
          currentValue := Wrap32(currentValue * 10 + DigitValue(c));
        }
      }
      k := k + 1;
    }
    ghost var scanned, lastIndex := parts, partIndex;
    if partIndex < MaxParts {
      parts := parts[partIndex := currentValue];
      partIndex := partIndex + 1;
    }
    count := partIndex;
    ScanFinish(version, scanned, lastIndex, currentValue, parts, count);
  }

  /** A parsed version, extended with zeros to the full buffer width. */
  function Padded(p: seq<int>): (r: seq<int>)
    requires |p| <= MaxParts
    ensures |r| == MaxParts
    ensures r[..|p|] == p
    ensures forall i :: |p| <= i < MaxParts ==> r[i] == 0
  {
    p + seq(MaxParts - |p|, _ => 0)
  }

  /** Lexicographic three-way comparison of two equally long integer sequences. */
  function Lex(a: seq<int>, b: seq<int>): (r: int)
    requires |a| == |b|
    ensures r in {-1, 0, 1}
  {
    if |a| == 0 then 0
    else if a[0] < b[0] then -1
    else if a[0] > b[0] then 1
    else Lex(a[1..], b[1..])
  }

  /** The segment vector a version string is compared by. */
  function Key(version: string): (k: seq<int>)
    ensures |k| == MaxParts
  {
    Padded(Parts(TrimStart(version, VersionPrefix)))
  }

  /** `CompareVersions(current, latest)`: -1 when `current` is older, 1 when newer, 0 when equal. */
  function Compare(current: string, latest: string): (r: int)
    ensures r in {-1, 0, 1}
  {
    Lex(Key(current), Key(latest))
  }

  /** Lex is decided at the first index where the sequences differ, and is 0 when they
      never do. */
  lemma {:induction false} LexFirstDifference(a: seq<int>, b: seq<int>, k: nat)
    requires |a| == |b| && k <= |a| && a[..k] == b[..k]
    ensures k == |a| ==> Lex(a, b) == 0
    ensures k < |a| && a[k] < b[k] ==> Lex(a, b) == -1
    ensures k < |a| && a[k] > b[k] ==> Lex(a, b) == 1
    decreases k
  {
    if k > 0 {
      assert a[0] == a[..k][0] == b[..k][0] == b[0];
      assert a[1..][..k - 1] == a[1..k] == a[..k][1..];
      assert b[1..][..k - 1] == b[1..k] == b[..k][1..];
      LexFirstDifference(a[1..], b[1..], k - 1);
    } else if |a| == 0 {
    }
  }

  /** Lex is 0 exactly on equal sequences. */
  lemma {:induction false} LexZeroIffEqual(a: seq<int>, b: seq<int>)
    requires |a| == |b|
    ensures Lex(a, b) == 0 <==> a == b
  {
    if |a| > 0 && a[0] == b[0] {
      LexZeroIffEqual(a[1..], b[1..]);
      if a[1..] == b[1..] {
        assert a == [a[0]] + a[1..];
        assert b == [b[0]] + b[1..];
      }
    }
  }

  /** Swapping the arguments of Lex negates the result. */
  lemma {:induction false} LexAntisymmetric(a: seq<int>, b: seq<int>)
    requires |a| == |b|
    ensures Lex(a, b) == -Lex(b, a)
  {
    if |a| > 0 && a[0] == b[0] {
      LexAntisymmetric(a[1..], b[1..]);
    }
  }

  /** Lex, read as "at most", is transitive. */
  lemma {:induction false} LexTransitive(a: seq<int>, b: seq<int>, c: seq<int>)
    requires |a| == |b| == |c|
    requires Lex(a, b) <= 0 && Lex(b, c) <= 0
    ensures Lex(a, c) <= 0
  {
    if |a| > 0 && a[0] == b[0] == c[0] {
      LexTransitive(a[1..], b[1..], c[1..]);
    }
  }

  /** The buffer ParseVersionParts fills is the zero-padded parse. */
  lemma {:induction false} BufferIsPadded(version: string, parts: seq<int>, count: int)
    requires |parts| == MaxParts && 1 <= count <= MaxParts
    requires parts[..count] == Parts(version)
    requires forall i :: count <= i < MaxParts ==> parts[i] == 0
    ensures Padded(Parts(version)) == parts
  {
    var padded := Padded(Parts(version));
    forall i | 0 <= i < MaxParts
      ensures padded[i] == parts[i]
    {
      if i < count {
        assert padded[i] == padded[..count][i] == parts[..count][i];
      }
    }
  }

  /** The loop of `CompareVersions` over two filled buffers: scan
      `Math.Max(currentCount, latestCount)` positions, reading 0 past a buffer's own
      count, and stop at the first difference. */
  method CompareBuffers(currentParts: seq<int>, currentCount: int, latestParts: seq<int>, latestCount: int)
    returns (r: int)
    requires |currentParts| == MaxParts && 1 <= currentCount <= MaxParts
    requires forall i :: currentCount <= i < MaxParts ==> currentParts[i] == 0
    requires |latestParts| == MaxParts && 1 <= latestCount <= MaxParts
    requires forall i :: latestCount <= i < MaxParts ==> latestParts[i] == 0
    ensures r == Lex(currentParts, latestParts)
  {
    var maxParts := if currentCount > latestCount then currentCount else latestCount;
    var i := 0;
    while i < maxParts
      invariant 0 <= i <= maxParts
      invariant currentParts[..i] == latestParts[..i]
    {
      var c := if i < currentCount then currentParts[i] else 0;
      var l := if i < latestCount then latestParts[i] else 0;
      if c < l {
        LexFirstDifference(currentParts, latestParts, i);
        return -1;
      }
      if c > l {
        LexFirstDifference(currentParts, latestParts, i);
        return 1;
      }
      assert currentParts[..i + 1] == currentParts[..i] + [currentParts[i]];
      assert latestParts[..i + 1] == latestParts[..i] + [latestParts[i]];
      i := i + 1;
    }
    assert currentParts == latestParts by {
      forall j | 0 <= j < MaxParts
        ensures currentParts[j] == latestParts[j]
      {
        if j < i {
          assert currentParts[j] == currentParts[..i][j];
        }
      }
    }
    LexFirstDifference(currentParts, latestParts, MaxParts);
    return 0;
  }

  /** `CompareVersions(current, latest)`: trim both strings, parse each into its own
      buffer, and compare the buffers. */
  method CompareVersions(current: string, latest: string) returns (r: int)
    ensures r == Compare(current, latest)
  {
    var currentParts, currentCount := ParseVersionParts(TrimStart(current, VersionPrefix));
    var latestParts, latestCount := ParseVersionParts(TrimStart(latest, VersionPrefix));
    r := CompareBuffers(currentParts, currentCount, latestParts, latestCount);
    BufferIsPadded(TrimStart(current, VersionPrefix), currentParts, currentCount);
    BufferIsPadded(TrimStart(latest, VersionPrefix), latestParts, latestCount);
  }

  /** Every version equals itself. */
  lemma {:induction false} CompareReflexive(v: string)
    ensures Compare(v, v) == 0
  {
    LexZeroIffEqual(Key(v), Key(v));
  }

  /** Swapping the two versions negates the answer. */
  lemma {:induction false} CompareAntisymmetric(current: string, latest: string)
    ensures Compare(current, latest) == -Compare(latest, current)
  {
    LexAntisymmetric(Key(current), Key(latest));
  }

  /** "Not newer than" is transitive. */
  lemma {:induction false} CompareTransitive(a: string, b: string, c: string)
    requires Compare(a, b) <= 0 && Compare(b, c) <= 0
    ensures Compare(a, c) <= 0
  {
    LexTransitive(Key(a), Key(b), Key(c));
  }

  /** Two versions compare equal exactly when their zero-padded segment vectors agree. */
  lemma {:induction false} CompareZeroIffSameKey(current: string, latest: string)
    ensures Compare(current, latest) == 0 <==> Key(current) == Key(latest)
  {
    LexZeroIffEqual(Key(current), Key(latest));
  }

  /** Any run of leading 'v'/'V' characters is ignored, so "v1.2.3", "V1.2.3",
      "vV1.2.3" and "1.2.3" are all the same version. */
  lemma {:induction false} LeadingVIgnored(p: string, v: string, other: string)
    requires forall i :: 0 <= i < |p| ==> p[i] in VersionPrefix
    ensures Compare(p + v, other) == Compare(v, other)
    ensures Compare(other, p + v) == Compare(other, v)
  {
    TrimStartPrefix(p, v, VersionPrefix);
  }

  /** The empty version parses to the single segment 0. */
  lemma {:induction false} PartsOfEmpty()
    ensures Parts("") == [0]
  {
    assert Split("", '.') == [""];
    assert SegmentValue("") == 0;
  }

  /** Once four segments are complete, the rest of the string (after the fourth dot)
      is never read into the buffer. */
  lemma {:induction false} PartsDropAfterFourthDot(a: string, b: string)
    requires |Split(a, '.')| == MaxParts
    ensures Parts(a + "." + b) == Parts(a)
  {
    SplitConcat(a, b, '.');
    assert Split(a + "." + b, '.')[..MaxParts] == Split(a, '.');
  }

  /** A character that is neither '.' nor a digit does not change the parse. */
  lemma {:induction false} NonDigitIgnored(v: string, c: char)
    requires c != '.' && !IsDigit(c)
    ensures Parts(v + [c]) == Parts(v)
  {
    SplitSnoc(v, c, '.');
    var pieces := Split(v, '.');
    var last := pieces[|pieces| - 1];
    SegmentValueSnoc(last, c);
    SegmentValuesReplaceLast(pieces, last + [c]);
  }

  /** Replacing the last piece by one of equal value keeps every piece's value. */
  lemma {:induction false} SegmentValuesReplaceLast(pieces: seq<string>, last: string)
    requires |pieces| > 0 && SegmentValue(last) == SegmentValue(pieces[|pieces| - 1])
    ensures SegmentValues(pieces[..|pieces| - 1] + [last]) == SegmentValues(pieces)
  {
    var q := pieces[..|pieces| - 1] + [last];
    assert q[..|q| - 1] == pieces[..|pieces| - 1];
  }

  /** Zeros appended within the buffer width disappear in the padding. */
  lemma {:induction false} PaddedAppendZero(p: seq<int>)
    requires |p| < MaxParts
    ensures Padded(p + [0]) == Padded(p)
  {
  }

  /** The pieces of `t + ".0"` are those of `t` followed by a piece of value 0. */
  lemma {:induction false} PartsAppendZero(t: string)
    requires |Split(t, '.')| < MaxParts
    ensures Parts(t + ".0") == Parts(t) + [0]
  {
    SplitAppendZero(t);
    SegmentValuesSnoc(Split(t, '.'), "0");
  }

  /** Appending ".0" appends the piece "0". */
  lemma {:induction false} SplitAppendZero(t: string)
    ensures Split(t + ".0", '.') == Split(t, '.') + ["0"]
  {
    assert t + ".0" == t + ['.'] + "0";
    SplitConcat(t, "0", '.');
    SplitOfZero();
  }

  /** The one-character version "0" is a single piece of value 0. */
  lemma {:induction false} SplitOfZero()
    ensures Split("0", '.') == ["0"] && SegmentValue("0") == 0
  {
    SplitSnoc("", '0', '.');
    assert "" + ['0'] == "0";
    assert "0"[..0] == "";
  }

  /** SegmentValues, unfolded once at a sequence of pieces that ends in `x`. */
  lemma {:induction false} SegmentValuesSnoc(pieces: seq<string>, x: string)
    ensures SegmentValues(pieces + [x]) == SegmentValues(pieces) + [SegmentValue(x)]
  {
    assert (pieces + [x])[..|pieces|] == pieces;
  }

  /** Appending ".0" to a version with fewer than four segments does not change it:
      missing trailing segments count as 0. */
  lemma {:induction false} TrailingZeroIgnored(v: string)
    requires |Split(TrimStart(v, VersionPrefix), '.')| < MaxParts
    ensures Compare(v + ".0", v) == 0
  {
    var t := TrimStart(v, VersionPrefix);
    TrimStartAppend(v, ".0", VersionPrefix);
    PartsAppendZero(t);
    PaddedAppendZero(Parts(t));
    assert Key(v + ".0") == Key(v);
    CompareReflexive(v);
  }
}
