/** Hand-written matchers for the four regular expressions of the extraction
    engine. Each one returns what `String.prototype.match` (or a global
    `RegExp.prototype.exec` loop) returns: the first capture group of the
    leftmost match. The comments explain why backtracking never changes the
    capture, so a single greedy pass per start position is exact. */
module Matchers {
  import opened Wrappers
  import opened JsText

  /** End of the maximal run of word characters (`\w`) that starts at `i`. */
  function WordRunEnd(s: string, i: nat): (j: nat)
    requires i <= |s|
    ensures i <= j <= |s|
    ensures forall k | i <= k < j :: IsWordChar(s[k])
    ensures j == |s| || !IsWordChar(s[j])
    decreases |s| - i
  {
    if i < |s| && IsWordChar(s[i]) then WordRunEnd(s, i + 1) else i
  }

  /** End of the maximal run of white space (`\s`) that starts at `i`. */
  function SpaceRunEnd(s: string, i: nat): (j: nat)
    requires i <= |s|
    ensures i <= j <= |s|
    decreases |s| - i
  {
    if i < |s| && IsSpace(s[i]) then SpaceRunEnd(s, i + 1) else i
  }

  // ---------------------------------------------------------------------------
  // extractVar: /([A-Za-z_][A-Za-z0-9_]*)/
  // ---------------------------------------------------------------------------

  /** The first index at or after `k` that holds `[A-Za-z_]`. */
  function FirstIdentStart(s: string, k: nat): (r: Option<nat>)
    requires k <= |s|
    ensures r.Some? ==> k <= r.value < |s| && IsIdentStart(s[r.value])
    ensures r.Some? ==> forall i | k <= i < r.value :: !IsIdentStart(s[i])
    ensures r.None? ==> forall i | k <= i < |s| :: !IsIdentStart(s[i])
    decreases |s| - k
  {
    if k == |s| then None
    else if IsIdentStart(s[k]) then Some(k)
    else FirstIdentStart(s, k + 1)
  }

  /** `v` is the identifier match of `s` that starts at `i`: `i` is the first
      letter or underscore, and `v` runs from there over `[A-Za-z0-9_]` as far
      as possible. */
  ghost predicate IdentMatchAt(s: string, i: nat, v: string)
  {
    && i < |s| && IsIdentStart(s[i])
    && (forall k | 0 <= k < i :: !IsIdentStart(s[k]))
    && OccursAt(s, v, i)
    && (forall k | i <= k < i + |v| :: IsWordChar(s[k]))
    && (i + |v| == |s| || !IsWordChar(s[i + |v|]))
  }

  /** `extractVar(s)`: `None` (the source's `null`) exactly when `s` holds no
      letter or underscore; otherwise the maximal `[A-Za-z0-9_]` run that
      starts at the first letter or underscore. A leftmost-first match of the
      expression starts at the first position that can start it; the greedy
      star then takes the whole run, and nothing follows it in the pattern,
      so no backtracking happens. */
  function ExtractVar(s: string): (r: Option<string>)
    ensures r.None? <==> forall i | 0 <= i < |s| :: !IsIdentStart(s[i])
    ensures r.Some? ==> |r.value| >= 1 && IsIdentStart(r.value[0])
    ensures r.Some? ==> exists i: nat :: IdentMatchAt(s, i, r.value)
  {
    match FirstIdentStart(s, 0)
    case None => None
    case Some(i) =>
      var v := s[i..WordRunEnd(s, i)];
      assert IdentMatchAt(s, i, v);
      Some(v)
  }

  // ---------------------------------------------------------------------------
  // assignRe: /(\w+)\s*=\s*\w*Operator\(/
  // ---------------------------------------------------------------------------

  /** `\s*=\s*\w*Operator\(` matches at `q`. Each `\s*` takes all the white
      space (giving some back would put white space where `=` or a word
      character is needed); `\w*Operator\(` then holds exactly when the word
      run after the second `\s*` ends in `Operator` and is followed by `(`,
      because `Operator` consists of word characters and `(` does not. */
  predicate AssignTailAt(l: string, q: nat)
    requires q <= |l|
  {
    var r1 := SpaceRunEnd(l, q);
    && r1 < |l| && l[r1] == '='
    && var r2 := SpaceRunEnd(l, r1 + 1);
       var e := WordRunEnd(l, r2);
       && e - r2 >= 8 && l[e - 8..e] == "Operator"
       && e < |l| && l[e] == '('
  }

  /** `assignRe` matches starting at `p`. Its `(\w+)` must take the whole word
      run from `p`: any shorter capture leaves a word character where `\s*=`
      needs white space or `=`. */
  predicate AssignAt(l: string, p: nat)
  {
    p < |l| && IsWordChar(l[p]) && AssignTailAt(l, WordRunEnd(l, p))
  }

  /** The leftmost start at or after `k` where `assignRe` matches. */
  function AssignFrom(l: string, k: nat): (r: Option<nat>)
    requires k <= |l|
    ensures r.Some? ==> k <= r.value < |l|
    decreases |l| - k
  {
    if k == |l| then None
    else if AssignAt(l, k) then Some(k)
    else AssignFrom(l, k + 1)
  }

  /** The search finds the least matching start, and fails only when no
      start at or after `k` matches. */
  lemma {:induction false} AssignFromLeftmost(l: string, k: nat)
    requires k <= |l|
    ensures var r := AssignFrom(l, k);
      && (r.Some? ==> k <= r.value < |l| && AssignAt(l, r.value))
      && (r.Some? ==> forall p | k <= p < r.value :: !AssignAt(l, p))
      && (r.None? ==> forall p | k <= p < |l| :: !AssignAt(l, p))
    decreases |l| - k
  {
    if k < |l| {
      if AssignAt(l, k) {
        assert AssignFrom(l, k) == Some(k);
      } else {
        AssignFromLeftmost(l, k + 1);
        assert AssignFrom(l, k) == AssignFrom(l, k + 1);
      }
    }
  }

  /** `l.match(assignRe)?.[1]`: the task variable of an operator assignment.
      The expression is unanchored, so it also matches inside a longer line. */
  function AssignMatch(l: string): Option<string>
  {
    match AssignFrom(l, 0)
    case None => None
    case Some(p) => Some(l[p..WordRunEnd(l, p)])
  }

  /** The expression fails exactly when no position starts a match, and
      otherwise captures the word run of the leftmost match. */
  lemma AssignMatchLeftmost(l: string)
    ensures AssignMatch(l).None? <==> forall p | 0 <= p < |l| :: !AssignAt(l, p)
    ensures AssignMatch(l).Some? ==> exists p | 0 <= p < |l| ::
      && AssignAt(l, p)
      && (forall k | 0 <= k < p :: !AssignAt(l, k))
      && AssignMatch(l).value == l[p..WordRunEnd(l, p)]
  {
    AssignFromLeftmost(l, 0);
  }

  /** A match that starts after a word character also starts one earlier. */
  lemma AssignAtShift(l: string, p: nat)
    requires 0 < p && AssignAt(l, p) && IsWordChar(l[p - 1])
    ensures AssignAt(l, p - 1)
  {
    assert WordRunEnd(l, p - 1) == WordRunEnd(l, p);
  }

  /** `name` occurs at `p` with no word character on either side. */
  ghost predicate WholeWordAt(l: string, name: string, p: nat)
  {
    && OccursAt(l, name, p)
    && (p == 0 || !IsWordChar(l[p - 1]))
    && (p + |name| == |l| || !IsWordChar(l[p + |name|]))
  }

  /** The leftmost match start is not preceded by a word character. */
  lemma AssignStartsWord(l: string, p: nat)
    requires AssignFrom(l, 0) == Some(p)
    ensures p == 0 || !IsWordChar(l[p - 1])
  {
    AssignFromLeftmost(l, 0);
    if p > 0 && IsWordChar(l[p - 1]) {
      AssignAtShift(l, p);
      assert false;
    }
  }

  /** The word the leftmost match captures, stated at its start. */
  lemma AssignWordAt(l: string, p: nat)
    requires AssignFrom(l, 0) == Some(p)
    ensures WholeWordAt(l, l[p..WordRunEnd(l, p)], p)
  {
    AssignStartsWord(l, p);
  }

  /** The captured task variable is a whole word of the line: a non-empty
      run of word characters with no word character on either side. */
  lemma AssignCapturesWholeWord(l: string, name: string)
    requires AssignMatch(l) == Some(name)
    ensures |name| >= 1
    ensures forall i | 0 <= i < |name| :: IsWordChar(name[i])
    ensures exists p: nat :: WholeWordAt(l, name, p)
  {
    var p := AssignFrom(l, 0).value;
    AssignFromLeftmost(l, 0);
    AssignWordAt(l, p);
    WordRunChars(l, p);
  }

  lemma WordRunChars(l: string, p: nat)
    requires p < |l| && IsWordChar(l[p])
    ensures |l[p..WordRunEnd(l, p)]| >= 1
    ensures forall i | 0 <= i < WordRunEnd(l, p) - p :: IsWordChar(l[p..WordRunEnd(l, p)][i])
  {
  }

  // ---------------------------------------------------------------------------
  // The Prefect definition pattern: /def\s+(\w+)/
  // ---------------------------------------------------------------------------

  /** `def\s+(\w+)` matches at `p`: the greedy `\s+` takes all the white space
      and `\w+` needs a word character right after it. */
  predicate DefAt(l: string, p: nat)
  {
    && p + 3 < |l| && l[p..p + 3] == "def" && IsSpace(l[p + 3])
    && var r := SpaceRunEnd(l, p + 3);
       r < |l| && IsWordChar(l[r])
  }

  function DefFrom(l: string, k: nat): (r: Option<nat>)
    requires k <= |l|
    ensures r.Some? ==> k <= r.value < |l| && DefAt(l, r.value)
    ensures r.Some? ==> forall p | k <= p < r.value :: !DefAt(l, p)
    ensures r.None? ==> forall p | k <= p < |l| :: !DefAt(l, p)
    decreases |l| - k
  {
    if k == |l| then None
    else if DefAt(l, k) then Some(k)
    else DefFrom(l, k + 1)
  }

  /** The name `/def\s+(\w+)/` captures at `p`. */
  function DefName(l: string, p: nat): (name: string)
    requires DefAt(l, p)
    ensures |name| >= 1 && forall i | 0 <= i < |name| :: IsWordChar(name[i])
  {
    var r := SpaceRunEnd(l, p + 3);
    l[r..WordRunEnd(l, r)]
  }

  /** `l.match(/def\s+(\w+)/)?.[1]`. The expression is unanchored and asks for
      no `(`: `undef  x` yields `x`, and so does `def x` with nothing after. */
  function DefMatch(l: string): (r: Option<string>)
  {
    match DefFrom(l, 0)
    case None => None
    case Some(p) => Some(DefName(l, p))
  }

  /** The expression fails exactly when no position starts a match, and
      otherwise captures the word of the leftmost match. */
  lemma DefMatchLeftmost(l: string)
    ensures DefMatch(l).None? <==> forall p | 0 <= p < |l| :: !DefAt(l, p)
    ensures DefMatch(l).Some? ==> exists p | 0 <= p < |l| ::
      DefAt(l, p) && (forall k | 0 <= k < p :: !DefAt(l, k)) && DefMatch(l).value == DefName(l, p)
  {
  }

  // ---------------------------------------------------------------------------
  // refRe: /ref\(["']([\w\.\-_]+)["']\)/g
  // ---------------------------------------------------------------------------

  predicate IsQuote(c: char) {
    c == '"' || c == '\''
  }

  /** The class `[\w\.\-_]`. */
  predicate IsRefNameChar(c: char) {
    IsWordChar(c) || c == '.' || c == '-'
  }

  /** End of the maximal run of `[\w\.\-_]` characters that starts at `i`. */
  function RefNameRunEnd(s: string, i: nat): (j: nat)
    requires i <= |s|
    ensures i <= j <= |s|
    ensures forall k | i <= k < j :: IsRefNameChar(s[k])
    ensures j == |s| || !IsRefNameChar(s[j])
    decreases |s| - i
  {
    if i < |s| && IsRefNameChar(s[i]) then RefNameRunEnd(s, i + 1) else i
  }

  /** The match of `refRe` that starts exactly at `p`, as the captured name and
      the index just past the match. The name class holds no quote, so the
      greedy run must end right at the closing quote; a shorter run would
      leave a name character where a quote is needed. The two quotes need
      not be the same character. */
  function RefAt(s: string, p: nat): (r: Option<(string, nat)>)
    requires p <= |s|
    ensures r.Some? ==> p + 8 <= r.value.1 <= |s|
    ensures r.Some? ==> r.value.0 == s[p + 5..r.value.1 - 2]
    ensures r.Some? ==> |r.value.0| >= 1 && forall i | 0 <= i < |r.value.0| :: IsRefNameChar(r.value.0[i])
  {
    if p + 5 <= |s| && s[p..p + 4] == "ref(" && IsQuote(s[p + 4]) then
      var q := RefNameRunEnd(s, p + 5);
      if q > p + 5 && q + 2 <= |s| && IsQuote(s[q]) && s[q + 1] == ')' then
        Some((s[p + 5..q], q + 2))
      else None
    else None
  }

  /** The names a global `refRe.exec` loop collects from index `k` on: each
      search starts where the previous match ended. */
  function RefMatchesFrom(s: string, k: nat): (names: seq<string>)
    requires k <= |s|
    ensures forall i | 0 <= i < |names| :: |names[i]| >= 1
    decreases |s| - k
  {
    if k == |s| then []
    else match RefAt(s, k)
      case Some((name, e)) => [name] + RefMatchesFrom(s, e)
      case None => RefMatchesFrom(s, k + 1)
  }

  /** Every collected name is the capture of a match that starts at or
      after `k`. */
  lemma {:induction false} RefMatchesFromSound(s: string, k: nat, i: nat)
    requires k <= |s| && i < |RefMatchesFrom(s, k)|
    ensures exists p | k <= p < |s| :: RefAt(s, p).Some? && RefAt(s, p).value.0 == RefMatchesFrom(s, k)[i]
    decreases |s| - k
  {
    match RefAt(s, k)
    case Some((name, e)) =>
      if i > 0 {
        RefMatchesFromSound(s, e, i - 1);
        var p :| e <= p < |s| && RefAt(s, p).Some? && RefAt(s, p).value.0 == RefMatchesFrom(s, e)[i - 1];
      }
    case None =>
      RefMatchesFromSound(s, k + 1, i);
      var p :| k + 1 <= p < |s| && RefAt(s, p).Some? && RefAt(s, p).value.0 == RefMatchesFrom(s, k + 1)[i];
  }

  /** No match is skipped: when `p` is the leftmost start at or after `k`
      of a match, the loop collects that match's name first and resumes
      right after the match. */
  lemma {:induction false} RefMatchesFromLeftmost(s: string, k: nat, p: nat)
    requires k <= p < |s| && RefAt(s, p).Some?
    requires forall q | k <= q < p :: RefAt(s, q).None?
    ensures RefMatchesFrom(s, k) == [RefAt(s, p).value.0] + RefMatchesFrom(s, RefAt(s, p).value.1)
    decreases p - k
  {
    if k < p {
      assert RefAt(s, k).None?;
      assert RefMatchesFrom(s, k) == RefMatchesFrom(s, k + 1);
      RefMatchesFromLeftmost(s, k + 1, p);
    }
  }

  /** With no match starting at or after `k`, the loop collects nothing. */
  lemma {:induction false} RefMatchesFromNone(s: string, k: nat)
    requires k <= |s|
    requires forall q | k <= q < |s| :: RefAt(s, q).None?
    ensures RefMatchesFrom(s, k) == []
    decreases |s| - k
  {
    if k < |s| {
      assert RefAt(s, k).None?;
      RefMatchesFromNone(s, k + 1);
    }
  }

  /** Every `ref("…")` target of an SQL model, in order of appearance. */
  function RefMatches(s: string): seq<string>
  {
    RefMatchesFrom(s, 0)
  }
}
