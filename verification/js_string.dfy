/**
 * The fragment of JavaScript string semantics the sync script relies on:
 * the `\s` and `\w` character classes, `toLowerCase`, `indexOf`,
 * `replace(string, string)` with its `$` substitution patterns, `trim`, and
 * the whole-string rewrites the script performs with global regular
 * expressions over single-character classes.
 */
module JsString {
  import opened Wrappers

  // ---------------------------------------------------------------------
  // Character classes
  // ---------------------------------------------------------------------

  /** JavaScript `\s`: WhiteSpace and LineTerminator code points (also what `trim` strips). */
  predicate IsSpace(c: char) {
    || c == '\t' || c == '\n' || c == '\U{000B}' || c == '\U{000C}' || c == '\r'
    || c == ' ' || c == '\U{00A0}' || c == '\U{1680}'
    || ('\U{2000}' <= c <= '\U{200A}')
    || c == '\U{2028}' || c == '\U{2029}' || c == '\U{202F}' || c == '\U{205F}'
    || c == '\U{3000}' || c == '\U{FEFF}'
  }

  predicate IsUpperAscii(c: char) {
    'A' <= c <= 'Z'
  }

  predicate IsLowerAscii(c: char) {
    'a' <= c <= 'z'
  }

  predicate IsAsciiDigit(c: char) {
    '0' <= c <= '9'
  }

  /** JavaScript `\w` without the `u` flag: ASCII letters, digits and `_`. */
  predicate IsWordChar(c: char) {
    IsUpperAscii(c) || IsLowerAscii(c) || IsAsciiDigit(c) || c == '_'
  }

  /** The range `가-힣` of a regular-expression class: the precomposed Hangul syllables. */
  predicate IsHangulSyllable(c: char) {
    '\U{AC00}' <= c <= '\U{D7A3}'
  }

  // ---------------------------------------------------------------------
  // toLowerCase
  // ---------------------------------------------------------------------

  /**
   * Lower-case mapping of one code point. ASCII and Latin-1 upper-case
   * letters map to their lower-case partners; KELVIN SIGN (U+212A) maps to
   * ASCII `k`; LATIN CAPITAL LETTER I WITH DOT ABOVE (U+0130) maps to two
   * code points. Every other code point is left unchanged.
   */
  function ToLowerChar(c: char): (r: string)
    ensures forall i :: 0 <= i < |r| ==> !IsUpperAscii(r[i])
    ensures !IsUpperAscii(c) && c != '\U{212A}' && c != '\U{0130}' && !('\U{00C0}' <= c <= '\U{00DE}') ==> r == [c]
  {
    if IsUpperAscii(c) then [(c as int + 32) as char]
    else if '\U{00C0}' <= c <= '\U{00DE}' && c != '\U{00D7}' then [(c as int + 32) as char]
    else if c == '\U{212A}' then "k"
    else if c == '\U{0130}' then "i\U{0307}"
    else [c]
  }

  function ToLowerCase(s: string): (r: string)
    ensures forall i :: 0 <= i < |r| ==> !IsUpperAscii(r[i])
    decreases |s|
  {
    if |s| == 0 then "" else ToLowerChar(s[0]) + ToLowerCase(s[1..])
  }

  /** A string none of whose code points `toLowerCase` changes is its own lower case. */
  lemma {:induction false} ToLowerCaseFixed(s: string)
    requires forall i :: 0 <= i < |s| ==> ToLowerChar(s[i]) == [s[i]]
    ensures ToLowerCase(s) == s
    decreases |s|
  {
    if |s| > 0 {
      ToLowerCaseFixed(s[1..]);
    }
  }

  // ---------------------------------------------------------------------
  // indexOf and replace(string, string)
  // ---------------------------------------------------------------------

  predicate OccursAt(s: string, pat: string, i: nat) {
    i + |pat| <= |s| && s[i..i + |pat|] == pat
  }

  /** `s.indexOf(pat, from)`: the first occurrence at or after `from`. */
  function IndexOfFrom(s: string, pat: string, from: nat): (r: Option<nat>)
    ensures r.Some? ==> from <= r.value && OccursAt(s, pat, r.value)
    ensures r.Some? ==> forall j :: from <= j < r.value ==> !OccursAt(s, pat, j)
    ensures r.None? ==> forall j :: from <= j ==> !OccursAt(s, pat, j)
    decreases |s| - from
  {
    if from + |pat| > |s| then None
    else if s[from..from + |pat|] == pat then Some(from)
    else IndexOfFrom(s, pat, from + 1)
  }

  function IndexOf(s: string, pat: string): (r: Option<nat>)
    ensures r.Some? ==> OccursAt(s, pat, r.value) && forall j :: 0 <= j < r.value ==> !OccursAt(s, pat, j)
    ensures r.None? ==> forall j :: 0 <= j ==> !OccursAt(s, pat, j)
  {
    IndexOfFrom(s, pat, 0)
  }

  /**
   * GetSubstitution for a string pattern (no capture groups): in the
   * replacement, `$$` stands for `$`, `$&` for the matched text, `` $` `` for
   * the text before the match and `$'` for the text after it; every other
   * character, including any other `$`, is copied.
   */
  function Substitution(rep: string, matched: string, before: string, after: string): string
    decreases |rep|
  {
    if |rep| == 0 then ""
    else if rep[0] == '$' && |rep| > 1 && rep[1] == '$' then "$" + Substitution(rep[2..], matched, before, after)
    else if rep[0] == '$' && |rep| > 1 && rep[1] == '&' then matched + Substitution(rep[2..], matched, before, after)
    else if rep[0] == '$' && |rep| > 1 && rep[1] == '`' then before + Substitution(rep[2..], matched, before, after)
    else if rep[0] == '$' && |rep| > 1 && rep[1] == '\'' then after + Substitution(rep[2..], matched, before, after)
    else [rep[0]] + Substitution(rep[1..], matched, before, after)
  }

  /** A replacement without `$` is inserted literally. */
  lemma {:induction false} SubstitutionLiteral(rep: string, matched: string, before: string, after: string)
    requires forall i :: 0 <= i < |rep| ==> rep[i] != '$'
    ensures Substitution(rep, matched, before, after) == rep
    decreases |rep|
  {
    if |rep| > 0 {
      SubstitutionLiteral(rep[1..], matched, before, after);
    }
  }

  /**
   * `s.replace(pat, rep)` with a string pattern: only the first occurrence of
   * `pat` is replaced, and `rep` is expanded by `Substitution`.
   */
  function ReplaceFirst(s: string, pat: string, rep: string): (r: string)
    ensures IndexOf(s, pat).None? ==> r == s
    ensures IndexOf(s, pat).Some? ==>
      var i := IndexOf(s, pat).value;
      r == s[..i] + Substitution(rep, pat, s[..i], s[i + |pat|..]) + s[i + |pat|..]
  {
    match IndexOf(s, pat)
    case None => s
    case Some(i) => s[..i] + Substitution(rep, pat, s[..i], s[i + |pat|..]) + s[i + |pat|..]
  }

  /** With a `$`-free replacement, the first occurrence and nothing else is replaced. */
  lemma ReplaceFirstLiteral(s: string, pat: string, rep: string, i: nat)
    requires forall k :: 0 <= k < |rep| ==> rep[k] != '$'
    requires OccursAt(s, pat, i)
    requires forall j :: 0 <= j < i ==> !OccursAt(s, pat, j)
    ensures ReplaceFirst(s, pat, rep) == s[..i] + rep + s[i + |pat|..]
  {
    SubstitutionLiteral(rep, pat, s[..i], s[i + |pat|..]);
  }

  // ---------------------------------------------------------------------
  // Runs of a character class
  // ---------------------------------------------------------------------

  /** Index just past the run of `inRun` code points that starts `s`. */
  function RunLength(s: string, inRun: char -> bool): (k: nat)
    ensures k <= |s|
    ensures forall i :: 0 <= i < k ==> inRun(s[i])
    ensures k < |s| ==> !inRun(s[k])
    decreases |s|
  {
    if |s| == 0 || !inRun(s[0]) then 0 else 1 + RunLength(s[1..], inRun)
  }

  /** Length of the run of `inRun` code points that ends `s`. */
  function TrailingRun(s: string, inRun: char -> bool): (k: nat)
    ensures k <= |s|
    ensures forall i :: |s| - k <= i < |s| ==> inRun(s[i])
    ensures k < |s| ==> !inRun(s[|s| - k - 1])
    decreases |s|
  {
    if |s| == 0 || !inRun(s[|s| - 1]) then 0 else 1 + TrailingRun(s[..|s| - 1], inRun)
  }

  // ---------------------------------------------------------------------
  // trim
  // ---------------------------------------------------------------------

  predicate AllSpace(s: string) {
    forall i :: 0 <= i < |s| ==> IsSpace(s[i])
  }

  /**
   * `s.trim()`: `s` with its leading and trailing white space removed.
   * The result is a slice of `s`, everything cut off is white space, and
   * the result neither starts nor ends with white space.
   */
  function Trim(s: string): (r: string)
    ensures RunLength(s, IsSpace) + |r| <= |s|
    ensures r == s[RunLength(s, IsSpace)..RunLength(s, IsSpace) + |r|]
    ensures AllSpace(s[..RunLength(s, IsSpace)]) && AllSpace(s[RunLength(s, IsSpace) + |r|..])
    ensures |r| > 0 ==> !IsSpace(r[0]) && !IsSpace(r[|r| - 1])
  {
    var a := RunLength(s, IsSpace);
    var t := s[a..];
    var r := t[..|t| - TrailingRun(t, IsSpace)];
    assert s[a + |r|..] == t[|r|..];
    r
  }

  /** A string that neither starts nor ends with white space is its own trim. */
  lemma TrimUnchanged(s: string)
    requires |s| > 0 ==> !IsSpace(s[0]) && !IsSpace(s[|s| - 1])
    ensures Trim(s) == s
  {
  }

  /** A consequence of `Trim`'s contract and `TrimUnchanged`: trimming twice is trimming once. */
  lemma TrimIdempotent(s: string)
    ensures Trim(Trim(s)) == Trim(s)
  {
    TrimUnchanged(Trim(s));
  }

  // ---------------------------------------------------------------------
  // Global rewrites over single-character classes
  // ---------------------------------------------------------------------

  /** `s.replace(/[^K]/g, '')`: keep exactly the code points satisfying `keep`, in order. */
  function Filter(s: string, keep: char -> bool): (r: string)
    ensures |r| <= |s|
    ensures forall i :: 0 <= i < |r| ==> keep(r[i])
    ensures (forall i :: 0 <= i < |s| ==> keep(s[i])) ==> r == s
    decreases |s|
  {
    if |s| == 0 then ""
    else if keep(s[0]) then [s[0]] + Filter(s[1..], keep)
    else Filter(s[1..], keep)
  }

  /** Filtering keeps any property all the input's code points have. */
  lemma {:induction false} FilterPreserves(s: string, keep: char -> bool, p: char -> bool)
    ensures (forall i :: 0 <= i < |s| ==> p(s[i])) ==>
      forall i :: 0 <= i < |Filter(s, keep)| ==> p(Filter(s, keep)[i])
    decreases |s|
  {
    if |s| > 0 {
      FilterPreserves(s[1..], keep, p);
    }
  }

  /** Filtering distributes over concatenation, so it removes exactly the rejected code points. */
  lemma {:induction false} FilterAppend(a: string, b: string, keep: char -> bool)
    ensures Filter(a + b, keep) == Filter(a, keep) + Filter(b, keep)
    decreases |a|
  {
    if |a| > 0 {
      assert (a + b)[0] == a[0];
      assert (a + b)[1..] == a[1..] + b;
      FilterAppend(a[1..], b, keep);
    } else {
      assert a + b == b;
    }
  }

  /**
   * `s.replace(/K+/g, rep)`: every maximal run of code points of the class
   * becomes the single code point `rep`.
   */
  function CollapseRuns(s: string, inRun: char -> bool, rep: char): (r: string)
    ensures |r| <= |s|
    ensures |s| > 0 ==> |r| > 0 && r[0] == (if inRun(s[0]) then rep else s[0])
    ensures forall i :: 0 <= i < |r| ==> r[i] == rep || !inRun(r[i])
    ensures inRun(rep) ==> forall i :: 0 <= i < |r| - 1 ==> !(inRun(r[i]) && inRun(r[i + 1]))
    ensures (forall i :: 0 <= i < |s| ==> !inRun(s[i])) ==> r == s
    decreases |s|
  {
    if |s| == 0 then ""
    else if inRun(s[0]) then
      var k := RunLength(s, inRun);
      [rep] + CollapseRuns(s[k..], inRun, rep)
    else [s[0]] + CollapseRuns(s[1..], inRun, rep)
  }

  /** Collapsing keeps any property the replacement and all the input's code points have. */
  lemma {:induction false} CollapseRunsPreserves(s: string, inRun: char -> bool, rep: char, p: char -> bool)
    ensures p(rep) && (forall i :: 0 <= i < |s| ==> p(s[i])) ==>
      forall i :: 0 <= i < |CollapseRuns(s, inRun, rep)| ==> p(CollapseRuns(s, inRun, rep)[i])
    decreases |s|
  {
    if |s| > 0 {
      if inRun(s[0]) {
        CollapseRunsPreserves(s[RunLength(s, inRun)..], inRun, rep, p);
      } else {
        CollapseRunsPreserves(s[1..], inRun, rep, p);
      }
    }
  }

  /**
   * Collapsing changes nothing when every class member already is `rep` and
   * no two class members are adjacent.
   */
  lemma {:induction false} CollapseRunsUnchanged(s: string, inRun: char -> bool, rep: char)
    ensures RunsCollapsed(s, inRun, rep) ==> CollapseRuns(s, inRun, rep) == s
    decreases |s|
  {
    if |s| > 0 && RunsCollapsed(s, inRun, rep) {
      if inRun(s[0]) {
        assert RunLength(s, inRun) == 1 by {
          if |s| > 1 {
            assert !inRun(s[1]);
          }
        }
      }
      CollapsedTail(s, inRun, rep);
      CollapseRunsUnchanged(s[1..], inRun, rep);
    }
  }

  /** Every class member is already `rep` and no two class members are adjacent. */
  predicate RunsCollapsed(s: string, inRun: char -> bool, rep: char) {
    && (forall i :: 0 <= i < |s| ==> inRun(s[i]) ==> s[i] == rep)
    && (forall i :: 0 <= i < |s| - 1 ==> !(inRun(s[i]) && inRun(s[i + 1])))
  }

  lemma CollapsedTail(s: string, inRun: char -> bool, rep: char)
    requires |s| > 0 && RunsCollapsed(s, inRun, rep)
    ensures RunsCollapsed(s[1..], inRun, rep)
  {
    var t := s[1..];
    assert forall i :: 0 <= i < |t| ==> t[i] == s[i + 1];
  }

  // ---------------------------------------------------------------------
  // Small rewrites used by the front matter
  // ---------------------------------------------------------------------

  predicate IsHyphen(c: char) {
    c == '-'
  }

  predicate IsNotHyphen(c: char) {
    c != '-'
  }

  /** `s.replace(/-/g, '')`. */
  function RemoveHyphens(s: string): (r: string)
    ensures forall i :: 0 <= i < |r| ==> r[i] != '-'
    ensures ('-' !in s) ==> r == s
  {
    Filter(s, IsNotHyphen)
  }

  /** `s.replace(/"/g, '\\"')`: every double quote gains a backslash in front of it. */
  function EscapeQuotes(s: string): (r: string)
    ensures |r| >= |s|
    ensures '"' !in s ==> r == s
    ensures forall i :: 0 <= i < |r| ==> r[i] == '"' ==> i > 0 && r[i - 1] == '\\'
    ensures |s| > 0 ==> |r| > 0 && (r[0] == '\\' || r[0] == s[0])
    ensures |s| > 0 && s[|s| - 1] != '\\' ==> r[|r| - 1] != '\\'
    decreases |s|
  {
    if |s| == 0 then ""
    else if s[0] == '"' then "\\\"" + EscapeQuotes(s[1..])
    else [s[0]] + EscapeQuotes(s[1..])
  }

  /** What escaping makes of one code point: `"` becomes `\"`, every other code point stays as it is. */
  function EscapeChar(c: char): string {
    if c == '"' then "\\\"" else [c]
  }

  /** Escaping works code point by code point. */
  lemma EscapeQuotesCons(s: string)
    requires |s| > 0
    ensures EscapeQuotes(s) == EscapeChar(s[0]) + EscapeQuotes(s[1..])
  {
  }

  /** Escaping distributes over concatenation. */
  lemma {:induction false} EscapeQuotesAppend(a: string, b: string)
    ensures EscapeQuotes(a + b) == EscapeQuotes(a) + EscapeQuotes(b)
    decreases |a|
  {
    if |a| > 0 {
      var head, rest := EscapeChar(a[0]), a[1..];
      assert (a + b)[0] == a[0] && (a + b)[1..] == rest + b;
      EscapeQuotesCons(a + b);
      EscapeQuotesCons(a);
      EscapeQuotesAppend(rest, b);
      assert EscapeQuotes(a + b) == head + (EscapeQuotes(rest) + EscapeQuotes(b));
    } else {
      assert a + b == b;
    }
  }

  /** A single code point is escaped as `EscapeChar` says. */
  lemma EscapeQuotesChar(c: char)
    ensures EscapeQuotes([c]) == EscapeChar(c)
  {
    EscapeQuotesCons([c]);
    assert [c][1..] == [];
  }
}
