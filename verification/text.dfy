/** The parts of Python's `str` the naming code relies on, for strings as
    sequences of Unicode scalar values: prefix and suffix tests, substring
    search, `strip`, `split`/`join` and the ordering `<`. `LastIndexOf` is not
    used by the code; it serves the reference definition of where a counter
    goes. */
module Text {

  function Min(a: int, b: int): int
  {
    if a < b then a else b
  }

  /** `s.startswith(prefix)`. */
  predicate StartsWith(s: string, prefix: string)
  {
    |prefix| <= |s| && s[..|prefix|] == prefix
  }

  /** `s.endswith(suffix)`. */
  predicate EndsWith(s: string, suffix: string)
  {
    |suffix| <= |s| && s[|s| - |suffix|..] == suffix
  }

  /** `pattern in s`: `pattern` occurs as a contiguous piece of `s`. */
  predicate Contains(s: string, pattern: string)
    decreases |s|
  {
    |pattern| <= |s| && (StartsWith(s, pattern) || Contains(s[1..], pattern))
  }

  /** A string holds every piece it is built around. */
  lemma {:induction false} ContainsMiddle(u: string, pattern: string, v: string)
    ensures Contains(u + pattern + v, pattern)
    decreases |u|
  {
    var s := u + pattern + v;
    if |u| == 0 {
      assert s[..|pattern|] == pattern;
    } else {
      assert s[1..] == u[1..] + pattern + v;
      ContainsMiddle(u[1..], pattern, v);
    }
  }

  // ---------------------------------------------------------------------------
  // Ordering

  /** `a < b` on Python strings: lexicographic by code point, a proper prefix
      sorting before its extensions. (Dafny's own `<` on sequences means
      "proper prefix", which is not the same.) */
  predicate LexLess(a: string, b: string)
    decreases |a|
  {
    |b| > 0 && (|a| == 0 || a[0] < b[0] || (a[0] == b[0] && LexLess(a[1..], b[1..])))
  }

  lemma {:induction false} LexLessIrreflexive(a: string)
    ensures !LexLess(a, a)
    decreases |a|
  {
    if |a| > 0 {
      LexLessIrreflexive(a[1..]);
    }
  }

  lemma {:induction false} LexLessTransitive(a: string, b: string, c: string)
    ensures LexLess(a, b) && LexLess(b, c) ==> LexLess(a, c)
    decreases |a|
  {
    if |a| > 0 && |b| > 0 && |c| > 0 && a[0] == b[0] && b[0] == c[0] {
      LexLessTransitive(a[1..], b[1..], c[1..]);
    }
  }

  /** Any two distinct strings are ordered one way or the other. */
  lemma {:induction false} LexLessTotal(a: string, b: string)
    ensures a == b || LexLess(a, b) || LexLess(b, a)
    decreases |a|
  {
    if |a| > 0 && |b| > 0 && a[0] == b[0] {
      LexLessTotal(a[1..], b[1..]);
      if a[1..] == b[1..] {
        assert a == [a[0]] + a[1..] && b == [b[0]] + b[1..];
      }
    }
  }

  // ---------------------------------------------------------------------------
  // strip

  /** The end of the run of characters `drop` selects that starts at `i`. */
  function SkipForward(s: string, i: nat, drop: char -> bool): (n: nat)
    requires i <= |s|
    ensures i <= n <= |s|
    ensures forall k :: i <= k < n ==> drop(s[k])
    ensures n == |s| || !drop(s[n])
    decreases |s| - i
  {
    if i == |s| || !drop(s[i]) then i else SkipForward(s, i + 1, drop)
  }

  /** The start of the run of characters `drop` selects that ends at `j`,
      going back no further than `lo`. */
  function SkipBackward(s: string, lo: nat, j: nat, drop: char -> bool): (n: nat)
    requires lo <= j <= |s|
    ensures lo <= n <= j
    ensures forall k :: n <= k < j ==> drop(s[k])
    ensures n == lo || !drop(s[n - 1])
    decreases j
  {
    if j == lo || !drop(s[j - 1]) then j else SkipBackward(s, lo, j - 1, drop)
  }

  /** `s[i..j]` is what stripping the characters `drop` selects from both ends
      of `s` leaves: everything outside the window is dropped, and the window is
      empty or starts and ends with a kept character. */
  predicate IsStripWindow(s: string, i: int, j: int, drop: char -> bool)
  {
    && 0 <= i <= j <= |s|
    && (forall k :: 0 <= k < i ==> drop(s[k]))
    && (forall k :: j <= k < |s| ==> drop(s[k]))
    && (i == j || (!drop(s[i]) && !drop(s[j - 1])))
  }

  /** `r` is `s` with the characters `drop` selects removed from both ends. */
  ghost predicate StripsTo(s: string, r: string, drop: char -> bool)
  {
    exists i, j :: IsStripWindow(s, i, j, drop) && r == s[i..j]
  }

  /** `s.strip(chars)`: the first loop skips dropped characters at the front,
      the second at the back of what is left. */
  function Strip(s: string, drop: char -> bool): (r: string)
    ensures StripsTo(s, r, drop)
    ensures forall c :: c in r ==> c in s
  {
    var i := SkipForward(s, 0, drop);
    var j := SkipBackward(s, i, |s|, drop);
    assert IsStripWindow(s, i, j, drop);
    SliceChars(s, i, j);
    s[i..j]
  }

  lemma SliceChars(s: string, i: int, j: int)
    requires 0 <= i <= j <= |s|
    ensures forall c :: c in s[i..j] ==> c in s
  {
    forall c | c in s[i..j]
      ensures c in s
    {
      var k :| 0 <= k < j - i && s[i..j][k] == c;
      assert s[i + k] == c;
    }
  }

  /** Every character `drop` does not select survives stripping. */
  lemma StripKeeps(s: string, r: string, drop: char -> bool)
    requires StripsTo(s, r, drop)
    ensures forall k :: 0 <= k < |s| && !drop(s[k]) ==> s[k] in r
  {
    var i, j :| IsStripWindow(s, i, j, drop) && r == s[i..j];
    forall k | 0 <= k < |s| && !drop(s[k])
      ensures s[k] in r
    {
      assert r[k - i] == s[k];
    }
  }

  /** Stripping never lengthens a string. */
  lemma StripShorter(s: string, r: string, drop: char -> bool)
    requires StripsTo(s, r, drop)
    ensures |r| <= |s|
  {
    var i, j :| IsStripWindow(s, i, j, drop) && r == s[i..j];
  }

  /** A stripped string neither starts nor ends with a dropped character. */
  lemma StripEnds(s: string, r: string, drop: char -> bool)
    requires StripsTo(s, r, drop)
    ensures |r| > 0 ==> !drop(r[0]) && !drop(r[|r| - 1])
  {
    var i, j :| IsStripWindow(s, i, j, drop) && r == s[i..j];
    if |r| > 0 {
      assert r[0] == s[i] && r[|r| - 1] == s[j - 1];
    }
  }

  /** Only one window qualifies, so `StripsTo` pins the stripped string down. */
  lemma StripWindowUnique(s: string, i1: int, j1: int, i2: int, j2: int, drop: char -> bool)
    requires IsStripWindow(s, i1, j1, drop) && IsStripWindow(s, i2, j2, drop)
    ensures s[i1..j1] == s[i2..j2]
  {
  }

  lemma StripUnique(s: string, r1: string, r2: string, drop: char -> bool)
    requires StripsTo(s, r1, drop) && StripsTo(s, r2, drop)
    ensures r1 == r2
  {
    var i1, j1 :| IsStripWindow(s, i1, j1, drop) && r1 == s[i1..j1];
    var i2, j2 :| IsStripWindow(s, i2, j2, drop) && r2 == s[i2..j2];
    StripWindowUnique(s, i1, j1, i2, j2, drop);
  }

  // ---------------------------------------------------------------------------
  // split, join, and the last occurrence of a character

  /** `sep.join(parts)`. */
  function Join(parts: seq<string>, sep: char): string
  {
    if |parts| == 0 then ""
    else if |parts| == 1 then parts[0]
    else parts[0] + [sep] + Join(parts[1..], sep)
  }

  /** `s.split(sep)`: the pieces between separators, at least one, none holding
      a separator, and joined back they give `s`. */
  function Split(s: string, sep: char): (parts: seq<string>)
    ensures |parts| >= 1
    ensures forall k :: 0 <= k < |parts| ==> sep !in parts[k]
    ensures Join(parts, sep) == s
    decreases |s|
  {
    if |s| == 0 then [""]
    else
      var rest := Split(s[1..], sep);
      if s[0] == sep then
        assert ([""] + rest)[1..] == rest;
        assert s == [sep] + s[1..];
        [""] + rest
      else
        var parts := [[s[0]] + rest[0]] + rest[1..];
        assert parts[1..] == rest[1..];
        assert s == [s[0]] + s[1..];
        parts
  }

  /** Joining one more piece puts a separator before it. */
  lemma {:induction false} JoinSnoc(parts: seq<string>, last: string, sep: char)
    requires |parts| >= 1
    ensures Join(parts + [last], sep) == Join(parts, sep) + [sep] + last
    decreases |parts|
  {
    if |parts| > 1 {
      assert (parts + [last])[1..] == parts[1..] + [last];
      JoinSnoc(parts[1..], last, sep);
    }
  }

  /** Splitting a string that starts with a separator-free piece. */
  lemma {:induction false} SplitAfterPiece(piece: string, s: string, sep: char)
    requires sep !in piece
    ensures Split(piece + s, sep) == [piece + Split(s, sep)[0]] + Split(s, sep)[1..]
    decreases |piece|
  {
    if |piece| == 0 {
      assert piece + s == s;
      assert piece + Split(s, sep)[0] == Split(s, sep)[0];
      assert Split(s, sep) == [Split(s, sep)[0]] + Split(s, sep)[1..];
    } else {
      var whole := piece + s;
      var rest := Split(whole[1..], sep);
      assert whole[1..] == piece[1..] + s;
      SplitAfterPiece(piece[1..], s, sep);
      assert rest == [piece[1..] + Split(s, sep)[0]] + Split(s, sep)[1..];
      assert whole[0] == piece[0] && piece[0] != sep;
      assert Split(whole, sep) == [[whole[0]] + rest[0]] + rest[1..];
      assert [piece[0]] + (piece[1..] + Split(s, sep)[0]) == piece + Split(s, sep)[0];
    }
  }

  /** The other half of the round trip: splitting a join of separator-free
      pieces gives the pieces back. */
  lemma {:induction false} SplitJoin(parts: seq<string>, sep: char)
    requires |parts| >= 1
    requires forall k :: 0 <= k < |parts| ==> sep !in parts[k]
    ensures Split(Join(parts, sep), sep) == parts
    decreases |parts|
  {
    if |parts| == 1 {
      SplitAfterPiece(parts[0], "", sep);
      assert parts[0] + "" == parts[0];
    } else {
      SplitJoin(parts[1..], sep);
      SplitJoinStep(parts, sep);
    }
  }

  lemma SplitJoinStep(parts: seq<string>, sep: char)
    requires |parts| > 1 && sep !in parts[0]
    requires Split(Join(parts[1..], sep), sep) == parts[1..]
    ensures Split(Join(parts, sep), sep) == parts
  {
    var rest := parts[1..];
    var marked := [sep] + Join(rest, sep);
    assert Join(parts, sep) == parts[0] + marked;
    SplitAfterSeparator(Join(rest, sep), sep);
    var split := Split(marked, sep);
    assert split[0] == "" && split[1..] == rest;
    SplitAfterPiece(parts[0], marked, sep);
    assert parts[0] + "" == parts[0];
    assert parts == [parts[0]] + rest;
  }

  /** A leading separator splits off an empty piece. */
  lemma SplitAfterSeparator(s: string, sep: char)
    ensures Split([sep] + s, sep) == [""] + Split(s, sep)
  {
    assert ([sep] + s)[1..] == s;
  }

  /** The index of the last `c` in `s`, or -1 when there is none. */
  function LastIndexOf(s: string, c: char): (r: int)
    ensures -1 <= r < |s|
    ensures r >= 0 ==> s[r] == c
    ensures forall k :: r < k < |s| ==> s[k] != c
    decreases |s|
  {
    if |s| == 0 then -1
    else if s[|s| - 1] == c then |s| - 1
    else
      var r := LastIndexOf(s[..|s| - 1], c);
      assert forall k :: 0 <= k < |s| - 1 ==> s[..|s| - 1][k] == s[k];
      r
  }

  /** A `c` followed by a `c`-free tail is the last `c`. */
  lemma {:induction false} LastIndexOfSplit(u: string, c: char, v: string)
    requires c !in v
    ensures LastIndexOf(u + [c] + v, c) == |u|
    decreases |v|
  {
    var s := u + [c] + v;
    if |v| > 0 {
      var v' := v[..|v| - 1];
      assert s[..|s| - 1] == u + [c] + v';
      assert s[|s| - 1] == v[|v| - 1];
      LastIndexOfSplit(u, c, v');
    }
  }
}
