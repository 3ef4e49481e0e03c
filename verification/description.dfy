/**
 * `extractDescription` (scripts/notion-sync.js): the Markdown body with
 * headings, images, link targets, code, emphasis marks and line breaks
 * removed, trimmed, and cut to at most `maxLength` code points plus an
 * ellipsis.
 */
module Description {
  import opened Wrappers
  import opened JsString
  import opened MarkdownPatterns

  /** The default `maxLength`. */
  const DefaultMaxLength: nat := 150

  const Ellipsis := "..."

  predicate IsEmphasis(c: char) {
    c == '*' || c == '_' || c == '~'
  }

  predicate IsNotEmphasis(c: char) {
    !IsEmphasis(c)
  }

  predicate IsNewline(c: char) {
    c == '\n'
  }

  /** The four regular-expression passes, in the order they are applied. */
  function StripSyntax(markdown: string): string {
    ReplaceAll(Code, ReplaceAll(Link, ReplaceAll(AnyImage, ReplaceAll(Heading, markdown))))
  }

  /** No line breaks or emphasis marks, and no white space at either end. */
  predicate IsPlain(s: string) {
    && (forall i :: 0 <= i < |s| ==> s[i] != '\n' && IsNotEmphasis(s[i]))
    && (|s| > 0 ==> !IsSpace(s[0]) && !IsSpace(s[|s| - 1]))
  }

  /** Emphasis marks dropped, line-break runs turned into one space, then trimmed. */
  function Flatten(stripped: string): (r: string)
    ensures IsPlain(r)
  {
    var kept := Filter(stripped, IsNotEmphasis);
    var joined := CollapseRuns(kept, IsNewline, ' ');
    CollapseRunsPreserves(kept, IsNewline, ' ', IsNotEmphasis);
    TrimPlain(joined);
    Trim(joined)
  }

  /** Trimming a text without line breaks or emphasis marks makes it plain. */
  lemma TrimPlain(joined: string)
    requires forall i :: 0 <= i < |joined| ==> joined[i] != '\n' && IsNotEmphasis(joined[i])
    ensures IsPlain(Trim(joined))
  {
    var r := Trim(joined);
    var a := RunLength(joined, IsSpace);
    assert forall i :: 0 <= i < |r| ==> r[i] == joined[a + i];
  }

  /** `plainText` */
  function PlainText(markdown: string): (r: string)
    ensures IsPlain(r)
  {
    Flatten(StripSyntax(markdown))
  }

  /**
   * `r` describes `plain` within `maxLength`: it is `plain` when that fits,
   * and otherwise a prefix of `plain` of at most `maxLength` code points,
   * not ending in white space, followed by the ellipsis, where everything
   * of the first `maxLength` code points past the prefix is white space.
   */
  predicate Describes(r: string, plain: string, maxLength: nat) {
    if |plain| <= maxLength then r == plain
    else
      && |Ellipsis| <= |r| <= maxLength + |Ellipsis|
      && r[|r| - |Ellipsis|..] == Ellipsis
      && r[..|r| - |Ellipsis|] == plain[..|r| - |Ellipsis|]
      && (|r| > |Ellipsis| ==> !IsSpace(r[|r| - |Ellipsis| - 1]))
      && (forall i :: |r| - |Ellipsis| <= i < maxLength ==> IsSpace(plain[i]))
  }

  /** The first `n` code points of a plain text, trimmed and followed by the ellipsis. */
  function Truncate(plain: string, n: nat): (r: string)
    requires IsPlain(plain) && n < |plain|
    ensures Describes(r, plain, n)
  {
    var head := plain[..n];
    assert n > 0 ==> !IsSpace(head[0]);
    var cut := Trim(head);
    assert RunLength(head, IsSpace) == 0;
    assert cut == plain[..|cut|];
    assert forall i :: |cut| <= i < n ==> plain[i] == head[|cut|..][i - |cut|];
    cut + Ellipsis
  }

  /** The description: the plain text when it fits, otherwise its truncation. */
  function ExtractDescription(markdown: string, maxLength: nat): (r: string)
    ensures Describes(r, PlainText(markdown), maxLength)
  {
    var plain := PlainText(markdown);
    if |plain| <= maxLength then plain else Truncate(plain, maxLength)
  }

  /** At most one text describes a plain text within a limit. */
  lemma DescribesUnique(r1: string, r2: string, plain: string, maxLength: nat)
    requires Describes(r1, plain, maxLength) && Describes(r2, plain, maxLength)
    ensures r1 == r2
  {
    if |plain| > maxLength {
      var n1, n2 := |r1| - |Ellipsis|, |r2| - |Ellipsis|;
      assert n1 == n2;
      assert r1 == r1[..n1] + r1[n1..];
      assert r2 == r2[..n2] + r2[n2..];
    }
  }

  /** `extractDescription` is the one text that describes the plain text of the Markdown within the limit. */
  lemma ExtractDescriptionUnique(markdown: string, maxLength: nat, r: string)
    requires Describes(r, PlainText(markdown), maxLength)
    ensures r == ExtractDescription(markdown, maxLength)
  {
    DescribesUnique(r, ExtractDescription(markdown, maxLength), PlainText(markdown), maxLength);
  }

  /** No match anywhere means the scan reports nothing. */
  lemma {:induction false} NoMatchAnywhere(pat: Pattern, s: string, from: nat)
    requires forall q :: from <= q < |s| ==> MatchAt(pat, s, q).None?
    ensures Matches(pat, s, from) == []
    decreases |s| - from
  {
    if from < |s| {
      NoMatchAnywhere(pat, s, from + 1);
    }
  }

  /** Every match of `pat` starts with `c`, so text without `c` is left alone. */
  lemma ReplaceAllWithout(pat: Pattern, s: string, c: char)
    requires c == (match pat case Heading => '#' case Code => '`' case Link => '[' case _ => '!')
    requires forall i :: 0 <= i < |s| ==> s[i] != c
    ensures ReplaceAll(pat, s) == s
  {
    forall q | 0 <= q < |s| ensures MatchAt(pat, s, q).None? {
      assert s[q] != c;
    }
    NoMatchAnywhere(pat, s, 0);
    ReplaceAllNoMatch(pat, s, 0);
  }

  /** Prose without any of the syntax the passes remove. */
  predicate IsProse(s: string) {
    forall i :: 0 <= i < |s| ==> s[i] !in "#`[!*_~\n"
  }

  /**
   * The passes only remove syntax: trimmed prose with no heading, code,
   * link or image marker, emphasis mark or line break is its own plain
   * text, and its own description when it fits.
   */
  lemma ProseIsPlain(s: string, maxLength: nat)
    requires IsProse(s)
    requires |s| > 0 ==> !IsSpace(s[0]) && !IsSpace(s[|s| - 1])
    ensures PlainText(s) == s
    ensures |s| <= maxLength ==> ExtractDescription(s, maxLength) == s
  {
    forall i | 0 <= i < |s| ensures s[i] != '#' && s[i] != '!' && s[i] != '[' && s[i] != '`' {
      assert s[i] !in "#`[!*_~\n";
    }
    ReplaceAllWithout(Heading, s, '#');
    ReplaceAllWithout(AnyImage, s, '!');
    ReplaceAllWithout(Link, s, '[');
    ReplaceAllWithout(Code, s, '`');
    assert StripSyntax(s) == s;
    forall i | 0 <= i < |s| ensures IsNotEmphasis(s[i]) && !IsNewline(s[i]) {
      assert s[i] !in "#`[!*_~\n";
    }
    assert Filter(s, IsNotEmphasis) == s;
    assert CollapseRuns(s, IsNewline, ' ') == s;
    TrimUnchanged(s);
  }

  /** The Markdown text of a link. */
  function LinkMarkup(text: string, target: string): string {
    "[" + text + "](" + target + ")"
  }

  /** The link expression at 0, given where its delimiters are. */
  lemma LinkFromDelimiters(s: string, q: nat, m: nat)
    requires 1 < q && q + 2 < m < |s|
    requires s[0] == '[' && Find(s, ']', 1) == Some(q)
    requires s[q + 1] == '(' && Find(s, ')', q + 2) == Some(m)
    ensures MatchAt(Link, s, 0) == Some(Hit(0, m + 1, s[1..q], s[q + 2..m]))
  {
  }

  /** The link expression recognises a link with non-empty text and target, and keeps both as groups. */
  lemma LinkMarkupMatches(text: string, target: string)
    requires |text| > 0 && ']' !in text && |target| > 0 && ')' !in target
    ensures MatchAt(Link, LinkMarkup(text, target), 0) == Some(Hit(0, |LinkMarkup(text, target)|, text, target))
  {
    var s := LinkMarkup(text, target);
    var q := 1 + |text|;
    var m := q + 2 + |target|;
    assert s == "[" + text + "](" + target + ")";
    assert s[1..q] == text && s[q] == ']' && s[q + 1] == '(' && s[q + 2..m] == target && s[m] == ')';
    forall k | 1 <= k < q ensures s[k] != ']' {
      assert s[k] == text[k - 1];
    }
    FindFirst(s, ']', 1, q);
    forall k | q + 2 <= k < m ensures s[k] != ')' {
      assert s[k] == target[k - q - 2];
    }
    FindFirst(s, ')', q + 2, m);
    LinkFromDelimiters(s, q, m);
  }

  /** The link pass replaces a link by its text (`$1`). */
  lemma LinkKeepsText(text: string, target: string)
    requires |text| > 0 && ']' !in text && |target| > 0 && ')' !in target
    ensures ReplaceAll(Link, LinkMarkup(text, target)) == text
  {
    var s := LinkMarkup(text, target);
    LinkMarkupMatches(text, target);
    assert ReplaceAllFrom(Link, s, |s|) == "";
    assert ReplaceAllFrom(Link, s, 0) == text + ReplaceAllFrom(Link, s, |s|);
  }
}
