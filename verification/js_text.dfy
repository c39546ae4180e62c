/** The JavaScript string operations the extraction engine relies on:
    character classes of its regular expressions, `trim`, `includes`,
    `startsWith`, `split` with a string separator, `split(/\r?\n/)`,
    `join`, decimal rendering of numbers and the UTF-16 view of a string. */
module JsText {
  import opened Wrappers

  /** `\w` of a JavaScript regular expression without the `u` flag. */
  predicate IsWordChar(c: char) {
    ('A' <= c <= 'Z') || ('a' <= c <= 'z') || ('0' <= c <= '9') || c == '_'
  }

  /** The class `[A-Za-z_]`. */
  predicate IsIdentStart(c: char) {
    ('A' <= c <= 'Z') || ('a' <= c <= 'z') || c == '_'
  }

  /** `\s` of a JavaScript regular expression; `String.prototype.trim` strips
      the same set (ECMAScript WhiteSpace and LineTerminator). */
  predicate IsSpace(c: char) {
    || c == '\t' || c == '\n' || c == '\U{0B}' || c == '\U{0C}' || c == '\r' || c == ' '
    || c == '\U{A0}' || c == '\U{1680}' || ('\U{2000}' <= c <= '\U{200A}')
    || c == '\U{2028}' || c == '\U{2029}' || c == '\U{202F}' || c == '\U{205F}'
    || c == '\U{3000}' || c == '\U{FEFF}'
  }

  // ---------------------------------------------------------------------------
  // trim / startsWith
  // ---------------------------------------------------------------------------

  function TrimStart(s: string): (r: string)
    ensures |r| <= |s| && r == s[|s| - |r|..]
    ensures forall i | 0 <= i < |s| - |r| :: IsSpace(s[i])
    ensures |r| > 0 ==> !IsSpace(r[0])
    decreases |s|
  {
    if |s| > 0 && IsSpace(s[0]) then TrimStart(s[1..]) else s
  }

  function TrimEnd(s: string): (r: string)
    ensures |r| <= |s| && r == s[..|r|]
    ensures forall i | |r| <= i < |s| :: IsSpace(s[i])
    ensures |r| > 0 ==> !IsSpace(r[|r| - 1])
    decreases |s|
  {
    if |s| > 0 && IsSpace(s[|s| - 1]) then TrimEnd(s[..|s| - 1]) else s
  }

  /** `String.prototype.trim`. */
  function Trim(s: string): string
  {
    TrimEnd(TrimStart(s))
  }

  /** `r` sits at index `i` of `s` with only white space before and after it. */
  ghost predicate PaddedAt(s: string, r: string, i: nat)
  {
    && OccursAt(s, r, i)
    && (forall k | 0 <= k < i :: IsSpace(s[k]))
    && (forall k | i + |r| <= k < |s| :: IsSpace(s[k]))
  }

  /** `trim` removes exactly the leading and the trailing white space: what
      is left is an infix of `s` that neither starts nor ends with white
      space, and everything around it is white space. */
  lemma TrimInfix(s: string)
    ensures exists i: nat :: PaddedAt(s, Trim(s), i)
    ensures |Trim(s)| > 0 ==> !IsSpace(Trim(s)[0]) && !IsSpace(Trim(s)[|Trim(s)| - 1])
  {
    var t := TrimStart(s);
    var r := TrimEnd(t);
    var i := |s| - |t|;
    assert r == Trim(s);
    assert s[i..i + |r|] == t[..|r|] == r;
    forall k | i + |r| <= k < |s|
      ensures IsSpace(s[k])
    {
      assert s[k] == t[k - i];
    }
    assert PaddedAt(s, r, i);
    if |r| > 0 {
      assert r[0] == t[0];
    }
  }

  predicate StartsWith(s: string, prefix: string) {
    |prefix| <= |s| && s[..|prefix|] == prefix
  }

  // ---------------------------------------------------------------------------
  // includes / indexOf
  // ---------------------------------------------------------------------------

  /** `sub` occurs in `s` starting at index `i`. */
  predicate OccursAt(s: string, sub: string, i: nat) {
    i + |sub| <= |s| && s[i..i + |sub|] == sub
  }

  /** `s.indexOf(sub, k)`: the leftmost occurrence at or after `k`. */
  function IndexFrom(s: string, sub: string, k: nat): (r: Option<nat>)
    ensures r.Some? ==> k <= r.value && OccursAt(s, sub, r.value)
    ensures r.Some? ==> forall i | k <= i < r.value :: !OccursAt(s, sub, i)
    ensures r.None? ==> forall i | k <= i :: !OccursAt(s, sub, i)
    decreases |s| - k
  {
    if k + |sub| > |s| then None
    else if s[k..k + |sub|] == sub then Some(k)
    else IndexFrom(s, sub, k + 1)
  }

  /** `s.includes(sub)`. */
  predicate Contains(s: string, sub: string)
  {
    IndexFrom(s, sub, 0).Some?
  }

  lemma ContainsIff(s: string, sub: string)
    ensures Contains(s, sub) <==> exists i: nat :: OccursAt(s, sub, i)
  {
  }

  /** A one-character string occurs exactly where that character is. */
  lemma OccursAtChar(s: string, c: char, i: nat)
    ensures OccursAt(s, [c], i) <==> i < |s| && s[i] == c
  {
    if i < |s| {
      assert s[i..i + 1] == [s[i]];
    }
  }

  lemma NotContainsChar(s: string, c: char)
    requires !Contains(s, [c])
    ensures forall i | 0 <= i < |s| :: s[i] != c
  {
    ContainsIff(s, [c]);
    forall i | 0 <= i < |s|
      ensures s[i] != c
    {
      OccursAtChar(s, c, i);
    }
  }

  lemma CharNotContained(s: string, c: char)
    requires forall i | 0 <= i < |s| :: s[i] != c
    ensures !Contains(s, [c])
  {
    ContainsIff(s, [c]);
    forall i: nat
      ensures !OccursAt(s, [c], i)
    {
      OccursAtChar(s, c, i);
    }
  }

  // ---------------------------------------------------------------------------
  // split / join
  // ---------------------------------------------------------------------------

  /** An occurrence inside a prefix is an occurrence in the whole string. */
  lemma OccursInPrefix(s: string, sub: string, n: nat, i: nat)
    requires n <= |s|
    requires OccursAt(s[..n], sub, i)
    ensures OccursAt(s, sub, i) && i + |sub| <= n
  {
    assert s[..n][i..i + |sub|] == s[i..i + |sub|];
  }

  /** `s.split(sep)` for a non-empty string separator: the pieces between
      the leftmost non-overlapping occurrences of `sep`. */
  function SplitOn(s: string, sep: string): (parts: seq<string>)
    requires |sep| > 0
    ensures |parts| >= 1
    decreases |s|
  {
    var r := IndexFrom(s, sep, 0);
    if r.None? then [s] else [s[..r.value]] + SplitOn(s[r.value + |sep|..], sep)
  }

  /** No piece of a split contains the separator. */
  lemma {:induction false} SplitPiecesClean(s: string, sep: string)
    requires |sep| > 0
    ensures forall k | 0 <= k < |SplitOn(s, sep)| :: !Contains(SplitOn(s, sep)[k], sep)
    decreases |s|
  {
    var r := IndexFrom(s, sep, 0);
    if r.None? {
      ContainsIff(s, sep);
    } else {
      var i := r.value;
      var head := s[..i];
      SplitPiecesClean(s[i + |sep|..], sep);
      ContainsIff(head, sep);
      forall j: nat | OccursAt(head, sep, j)
        ensures false
      {
        OccursInPrefix(s, sep, i, j);
      }
    }
  }

  /** `parts.join(sep)`. */
  function JoinWith(parts: seq<string>, sep: string): string
  {
    if |parts| == 0 then ""
    else if |parts| == 1 then parts[0]
    else parts[0] + sep + JoinWith(parts[1..], sep)
  }

  lemma SplitOnStep(s: string, sep: string, i: nat)
    requires |sep| > 0 && IndexFrom(s, sep, 0) == Some(i)
    ensures SplitOn(s, sep) == [s[..i]] + SplitOn(s[i + |sep|..], sep)
  {
    var r := IndexFrom(s, sep, 0);
    assert r.value == i;
  }

  lemma JoinCons(head: string, tail: seq<string>, sep: string)
    requires |tail| >= 1
    ensures JoinWith([head] + tail, sep) == head + sep + JoinWith(tail, sep)
  {
    assert ([head] + tail)[1..] == tail;
  }

  /** Joining the pieces of a split with the same separator gives back the
      original string. */
  lemma {:induction false} JoinSplit(s: string, sep: string)
    requires |sep| > 0
    ensures JoinWith(SplitOn(s, sep), sep) == s
    decreases |s|
  {
    var r := IndexFrom(s, sep, 0);
    if r.Some? {
      var i := r.value;
      var rest := s[i + |sep|..];
      var tail := SplitOn(rest, sep);
      SplitOnStep(s, sep, i);
      JoinCons(s[..i], tail, sep);
      JoinSplit(rest, sep);
      assert JoinWith(SplitOn(s, sep), sep) == s[..i] + sep + rest;
      assert s[i..i + |sep|] == sep;
      assert s == s[..i] + s[i..i + |sep|] + rest;
    }
  }

  /** Splitting pieces that do not contain a one-character separator,
      after joining them with it, gives back the pieces. */
  lemma {:induction false} SplitJoin(parts: seq<string>, c: char)
    requires |parts| >= 1
    requires forall k, i | 0 <= k < |parts| && 0 <= i < |parts[k]| :: parts[k][i] != c
    ensures SplitOn(JoinWith(parts, [c]), [c]) == parts
    decreases |parts|
  {
    var s := JoinWith(parts, [c]);
    if |parts| == 1 {
      CharNotContained(parts[0], c);
    } else {
      var p0 := parts[0];
      var rest := JoinWith(parts[1..], [c]);
      assert s == p0 + [c] + rest;
      OccursAtChar(s, c, |p0|);
      var r := IndexFrom(s, [c], 0);
      assert r == Some(|p0|);
      assert s[..|p0|] == p0;
      assert s[|p0| + 1..] == rest;
      SplitJoin(parts[1..], c);
      assert SplitOn(s, [c]) == [p0] + SplitOn(rest, [c]);
      assert parts == [p0] + parts[1..];
    }
  }

  /** The number of occurrences of `c` in `s`. */
  function Count(s: string, c: char): nat
  {
    if |s| == 0 then 0 else Count(s[..|s| - 1], c) + (if s[|s| - 1] == c then 1 else 0)
  }

  lemma {:induction false} CountAppend(a: string, b: string, c: char)
    ensures Count(a + b, c) == Count(a, c) + Count(b, c)
    decreases |b|
  {
    if |b| == 0 {
      assert a + b == a;
    } else {
      assert (a + b)[..|a + b| - 1] == a + b[..|b| - 1];
      CountAppend(a, b[..|b| - 1], c);
    }
  }

  lemma {:induction false} CountAbsent(s: string, c: char)
    requires forall i | 0 <= i < |s| :: s[i] != c
    ensures Count(s, c) == 0
    decreases |s|
  {
    if |s| > 0 {
      CountAbsent(s[..|s| - 1], c);
    }
  }

  /** Splitting on one character yields one more piece than there are
      occurrences of that character. */
  lemma {:induction false} SplitCount(s: string, c: char)
    ensures |SplitOn(s, [c])| == Count(s, c) + 1
    decreases |s|
  {
    match IndexFrom(s, [c], 0)
    case None =>
      SplitPiecesClean(s, [c]);
      NotContainsChar(s, c);
      CountAbsent(s, c);
    case Some(i) =>
      var rest := s[i + 1..];
      SplitCount(rest, c);
      OccursAtChar(s, c, i);
      SplitPiecesClean(s, [c]);
      assert SplitOn(s, [c])[0] == s[..i];
      NotContainsChar(s[..i], c);
      CountAbsent(s[..i], c);
      assert s == s[..i] + [c] + rest;
      CountAppend(s[..i] + [c], rest, c);
      CountAppend(s[..i], [c], c);
      assert [c][..0] == [];
  }

  // ---------------------------------------------------------------------------
  // split(/\r?\n/)
  // ---------------------------------------------------------------------------

  function DropCR(line: string): (r: string)
    ensures r == line || (line == r + "\r")
  {
    if |line| > 0 && line[|line| - 1] == '\r' then line[..|line| - 1] else line
  }

  /** `content.split(/\r?\n/)`. Every match of the expression is a line feed
      together with the carriage return right before it, if any; so the lines
      are the pieces between line feeds, each but the last without one
      trailing carriage return. */
  function SplitLines(s: string): (lines: seq<string>)
    ensures |lines| == Count(s, '\n') + 1
    ensures forall k, i | 0 <= k < |lines| && 0 <= i < |lines[k]| :: lines[k][i] != '\n'
  {
    var parts := SplitOn(s, "\n");
    SplitCount(s, '\n');
    SplitPiecesClean(s, "\n");
    forall k | 0 <= k < |parts|
      ensures forall i | 0 <= i < |parts[k]| :: parts[k][i] != '\n'
    {
      NotContainsChar(parts[k], '\n');
    }
    seq(|parts|, k requires 0 <= k < |parts| =>
      if k < |parts| - 1 then DropCR(parts[k]) else parts[k])
  }

  /** Without carriage returns, joining the lines with line feeds gives back
      the content. */
  lemma SplitLinesJoin(s: string)
    requires forall i | 0 <= i < |s| :: s[i] != '\r'
    ensures JoinWith(SplitLines(s), "\n") == s
  {
    var parts := SplitOn(s, "\n");
    JoinSplit(s, "\n");
    forall k | 0 <= k < |parts| - 1
      ensures DropCR(parts[k]) == parts[k]
    {
      JoinPieceIsInfix(parts, "\n", k);
      var j: nat :| OccursAt(s, parts[k], j);
      if |parts[k]| > 0 {
        assert parts[k][|parts[k]| - 1] == s[j + |parts[k]| - 1];
      }
    }
    assert SplitLines(s) == parts;
  }

  /** Every piece of a join is an infix of the joined string. */
  lemma {:induction false} JoinPieceIsInfix(parts: seq<string>, sep: string, k: nat)
    requires k < |parts|
    ensures exists j: nat :: OccursAt(JoinWith(parts, sep), parts[k], j)
    decreases |parts|
  {
    var s := JoinWith(parts, sep);
    if |parts| == 1 {
      assert s == parts[0] && s[0..|s|] == s;
      assert OccursAt(s, parts[k], 0);
    } else {
      var t := JoinWith(parts[1..], sep);
      assert s == parts[0] + sep + t;
      if k == 0 {
        assert s[0..|parts[0]|] == parts[0];
        assert OccursAt(s, parts[0], 0);
      } else {
        JoinPieceIsInfix(parts[1..], sep, k - 1);
        assert parts[1..][k - 1] == parts[k];
        var j: nat :| OccursAt(t, parts[k], j);
        var off := |parts[0]| + |sep|;
        assert s[off + j..off + j + |parts[k]|] == t[j..j + |parts[k]|];
        assert OccursAt(s, parts[k], off + j);
      }
    }
  }

  // ---------------------------------------------------------------------------
  // Numbers as text
  // ---------------------------------------------------------------------------

  predicate IsDigit(c: char) {
    '0' <= c <= '9'
  }

  function DigitChar(d: nat): (c: char)
    requires d < 10
    ensures IsDigit(c) && c as int - '0' as int == d
  {
    ('0' as int + d) as char
  }

  /** A decimal numeral as JavaScript prints a non-negative integer:
      digits only, no leading zero unless the numeral is `0`. */
  predicate IsCanonicalDecimal(s: string) {
    && |s| >= 1
    && (forall i | 0 <= i < |s| :: IsDigit(s[i]))
    && (|s| > 1 ==> s[0] != '0')
  }

  function DecimalValue(s: string): nat
    requires forall i | 0 <= i < |s| :: IsDigit(s[i])
  {
    if |s| == 0 then 0
    else
      assert IsDigit(s[|s| - 1]);
      DecimalValue(s[..|s| - 1]) * 10 + (s[|s| - 1] as int - '0' as int)
  }

  /** `String(n)` for a non-negative integer `n`. */
  function Decimal(n: nat): string
  {
    if n < 10 then [DigitChar(n)] else Decimal(n / 10) + [DigitChar(n % 10)]
  }

  /** The printed numeral is canonical. */
  lemma {:induction false} DecimalIsCanonical(n: nat)
    ensures IsCanonicalDecimal(Decimal(n))
  {
    var r := Decimal(n);
    if n >= 10 {
      var t := Decimal(n / 10);
      DecimalIsCanonical(n / 10);
      assert r == t + [DigitChar(n % 10)];
      if n / 10 < 10 {
        assert t == [DigitChar(n / 10)];
        assert t[0] != '0';
      } else {
        assert t == Decimal(n / 100) + [DigitChar(n / 10 % 10)];
        assert |t| > 1;
      }
      assert r[0] == t[0];
      forall i | 0 <= i < |r|
        ensures IsDigit(r[i])
      {
        if i < |t| {
          assert r[i] == t[i];
        }
      }
    }
  }

  /** Reading the numeral back gives the number. */
  lemma {:induction false} DecimalRoundTrip(n: nat)
    ensures IsCanonicalDecimal(Decimal(n)) && DecimalValue(Decimal(n)) == n
  {
    DecimalIsCanonical(n);
    if n >= 10 {
      DecimalRoundTrip(n / 10);
      var s := Decimal(n);
      assert s[..|s| - 1] == Decimal(n / 10);
    }
  }

  lemma {:induction false} LeadingDigitPositive(s: string)
    requires |s| >= 1 && forall i | 0 <= i < |s| :: IsDigit(s[i])
    requires s[0] != '0'
    ensures DecimalValue(s) > 0
    decreases |s|
  {
    if |s| > 1 {
      LeadingDigitPositive(s[..|s| - 1]);
    }
  }

  /** Every canonical numeral is the one printed for its value. */
  lemma {:induction false} DecimalCanonical(s: string)
    requires IsCanonicalDecimal(s)
    ensures Decimal(DecimalValue(s)) == s
    decreases |s|
  {
    if |s| > 1 {
      var t := s[..|s| - 1];
      LeadingDigitPositive(t);
      DecimalCanonical(t);
      assert s == t + [s[|s| - 1]];
    }
  }

  // ---------------------------------------------------------------------------
  // UTF-16 view
  // ---------------------------------------------------------------------------

  /** The UTF-16 code units of one character (a surrogate pair above U+FFFF). */
  function Utf16(c: char): seq<int>
  {
    var v := c as int;
    if v < 0x1_0000 then [v]
    else [0xD800 + (v - 0x1_0000) / 0x400, 0xDC00 + (v - 0x1_0000) % 0x400]
  }

  /** A character is one code unit in the Basic Multilingual Plane and a
      surrogate pair above it; every unit is a 16-bit value. */
  lemma Utf16Units(c: char)
    ensures 1 <= |Utf16(c)| <= 2
    ensures forall k | 0 <= k < |Utf16(c)| :: 0 <= Utf16(c)[k] < 0x1_0000
    ensures (c as int) < 0x1_0000 <==> Utf16(c) == [c as int]
  {
  }

  /** What `charCodeAt` enumerates: the UTF-16 code units of `s`. */
  function CodeUnits(s: string): seq<int>
  {
    if |s| == 0 then [] else CodeUnits(s[..|s| - 1]) + Utf16(s[|s| - 1])
  }

  /** There are at least as many code units as characters, and each is a
      16-bit value. */
  lemma {:induction false} CodeUnitsBounds(s: string)
    ensures |CodeUnits(s)| >= |s|
    ensures forall k | 0 <= k < |CodeUnits(s)| :: 0 <= CodeUnits(s)[k] < 0x1_0000
    decreases |s|
  {
    if |s| > 0 {
      CodeUnitsBounds(s[..|s| - 1]);
      Utf16Units(s[|s| - 1]);
    }
  }

  lemma {:induction false} CodeUnitsAppend(a: string, b: string)
    ensures CodeUnits(a + b) == CodeUnits(a) + CodeUnits(b)
    decreases |b|
  {
    if |b| == 0 {
      assert a + b == a;
    } else {
      assert (a + b)[..|a + b| - 1] == a + b[..|b| - 1];
      CodeUnitsAppend(a, b[..|b| - 1]);
    }
  }
}
