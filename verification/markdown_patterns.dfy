/**
 * Hand-written matchers for the regular expressions scripts/notion-sync.js
 * applies to Markdown text, and the left-to-right global scan that `exec`
 * and `replace` perform with them. Each matcher decides whether its
 * expression matches starting exactly at a position, following the
 * expression's greedy and backtracking behaviour.
 */
module MarkdownPatterns {
  import opened Wrappers
  import opened JsString

  datatype Pattern =
    /** `/!\[([^\]]*)\]\((https?:\/\/[^\)]+)\)/g`: an image with an http(s) URL. */
    | HttpImage
    /** `/#{1,6}\s+/g`: a heading marker. */
    | Heading
    /** `/!\[([^\]]*)\]\([^\)]+\)/g`: an image with any target. */
    | AnyImage
    /** `/\[([^\]]+)\]\([^\)]+\)/g`: a link. */
    | Link
    /** `/`{1,3}[^`]*`{1,3}/g`: inline or fenced code. */
    | Code

  /** A match: the text `s[start..end]` and its first two capture groups. */
  datatype Hit = Hit(start: nat, end: nat, group1: string, group2: string)

  predicate IsHash(c: char) {
    c == '#'
  }

  predicate IsBacktick(c: char) {
    c == '`'
  }

  function Min(a: nat, b: nat): nat {
    if a <= b then a else b
  }

  /** The first `c` at or after `from`. */
  function Find(s: string, c: char, from: nat): (r: Option<nat>)
    ensures r.Some? ==> from <= r.value < |s| && s[r.value] == c
    ensures r.Some? ==> forall k :: from <= k < r.value ==> s[k] != c
    ensures r.None? ==> forall k :: from <= k < |s| ==> s[k] != c
    decreases |s| - from
  {
    if from >= |s| then None
    else if s[from] == c then Some(from)
    else Find(s, c, from + 1)
  }

  /**
   * `\]\(` then a group of at least `min` code points up to the first `)`:
   * the common tail of the image and link expressions, starting at the
   * closing bracket `q`. Returns the index of the `)`.
   */
  function ParenTarget(s: string, q: nat, minStart: nat): (r: Option<nat>)
    requires q < |s| && q + 2 <= minStart
    ensures r.Some? ==> minStart < r.value < |s| && s[r.value] == ')'
    ensures r.Some? ==> forall k :: q + 2 <= k < r.value ==> s[k] != ')'
  {
    if q + 1 < |s| && s[q + 1] == '(' then
      match Find(s, ')', q + 2)
      case None => None
      case Some(m) => if m > minStart then Some(m) else None
    else None
  }

  /** `http` at `u`. */
  predicate HttpAt(s: string, u: nat) {
    u + 4 <= |s| && s[u] == 'h' && s[u + 1] == 't' && s[u + 2] == 't' && s[u + 3] == 'p'
  }

  /** `://` at `u`. */
  predicate SeparatorAt(s: string, u: nat) {
    u + 3 <= |s| && s[u] == ':' && s[u + 1] == '/' && s[u + 2] == '/'
  }

  /** Length of the `http://` or `https://` prefix at `u`, or 0 (`https?:\/\/`). */
  function SchemeLength(s: string, u: nat): (n: nat)
    ensures n == 0 || n == 7 || n == 8
  {
    if !HttpAt(s, u) then 0
    else if SeparatorAt(s, u + 4) then 7
    else if u + 4 < |s| && s[u + 4] == 's' && SeparatorAt(s, u + 5) then 8
    else 0
  }

  /** `!\[([^\]]*)\]\(` followed by the target rule of the image pattern in use. */
  function MatchImage(s: string, p: nat, httpOnly: bool): (r: Option<Hit>)
    ensures r.Some? ==> r.value.start == p < r.value.end <= |s|
  {
    if p + 1 < |s| && s[p] == '!' && s[p + 1] == '[' then
      match Find(s, ']', p + 2)
      case None => None
      case Some(q) =>
        var scheme := if httpOnly && q + 2 <= |s| then SchemeLength(s, q + 2) else 0;
        if httpOnly && scheme == 0 then None
        else
          match ParenTarget(s, q, q + 2 + scheme)
          case None => None
          case Some(m) => Some(Hit(p, m + 1, s[p + 2..q], s[q + 2..m]))
    else None
  }

  /** `\[([^\]]+)\]\([^\)]+\)` */
  function MatchLink(s: string, p: nat): (r: Option<Hit>)
    ensures r.Some? ==> r.value.start == p < r.value.end <= |s|
  {
    if p < |s| && s[p] == '[' then
      match Find(s, ']', p + 1)
      case None => None
      case Some(q) =>
        if q == p + 1 then None
        else
          match ParenTarget(s, q, q + 2)
          case None => None
          case Some(m) => Some(Hit(p, m + 1, s[p + 1..q], s[q + 2..m]))
    else None
  }

  /**
   * `#{1,6}\s+`: up to six `#` must be followed by white space; a run of
   * more than six `#` cannot match at its first `#`.
   */
  function MatchHeading(s: string, p: nat): (r: Option<Hit>)
    ensures r.Some? ==> r.value.start == p < r.value.end <= |s|
  {
    if p < |s| && s[p] == '#' then
      var n := Min(RunLength(s[p..], IsHash), 6);
      if p + n < |s| && IsSpace(s[p + n]) then
        Some(Hit(p, p + n + RunLength(s[p + n..], IsSpace), "", ""))
      else None
    else None
  }

  /**
   * `` `{1,3}[^`]*`{1,3} ``: with an opening run of r backticks, r > 3
   * matches three of them and then up to three more; otherwise the text up
   * to the next backtick and up to three backticks there; with no later
   * backtick, a run of two or three matches by itself (the opening
   * quantifier gives one back) and a single backtick does not match.
   */
  function MatchCode(s: string, p: nat): (r: Option<Hit>)
    ensures r.Some? ==> r.value.start == p < r.value.end <= |s|
  {
    if p < |s| && s[p] == '`' then
      var run := RunLength(s[p..], IsBacktick);
      if run > 3 then Some(Hit(p, p + 3 + Min(run - 3, 3), "", ""))
      else
        match Find(s, '`', p + run)
        case Some(j) => Some(Hit(p, j + Min(RunLength(s[j..], IsBacktick), 3), "", ""))
        case None => if run >= 2 then Some(Hit(p, p + run, "", "")) else None
    else None
  }

  /** Whether `pat` matches starting exactly at `p`, and how. */
  function MatchAt(pat: Pattern, s: string, p: nat): (r: Option<Hit>)
    ensures r.Some? ==> r.value.start == p < r.value.end <= |s|
  {
    match pat
    case HttpImage => MatchImage(s, p, true)
    case AnyImage => MatchImage(s, p, false)
    case Link => MatchLink(s, p)
    case Heading => MatchHeading(s, p)
    case Code => MatchCode(s, p)
  }

  /** `q` lies outside every hit. */
  predicate Uncovered(hits: seq<Hit>, q: nat) {
    forall k :: 0 <= k < |hits| ==> q < hits[k].start || hits[k].end <= q
  }

  /**
   * The successive results of `exec` on a global expression from
   * `lastIndex = from`: each search starts where the previous match ended,
   * so the matches are in order, do not overlap, and each is what the
   * expression matches at its start.
   */
  function Matches(pat: Pattern, s: string, from: nat): (r: seq<Hit>)
    ensures forall k :: 0 <= k < |r| ==> from <= r[k].start && MatchAt(pat, s, r[k].start) == Some(r[k])
    ensures forall k :: 0 <= k < |r| - 1 ==> r[k].end <= r[k + 1].start
    decreases |s| - from
  {
    if from >= |s| then []
    else
      match MatchAt(pat, s, from)
      case Some(h) =>
        var rest := Matches(pat, s, h.end);
        ConsInOrder(h, rest);
        [h] + rest
      case None => Matches(pat, s, from + 1)
  }

  /** A hit ending before an ordered run of hits starts extends it in order. */
  lemma ConsInOrder(h: Hit, rest: seq<Hit>)
    requires forall k :: 0 <= k < |rest| ==> h.end <= rest[k].start
    requires forall k :: 0 <= k < |rest| - 1 ==> rest[k].end <= rest[k + 1].start
    ensures forall k :: 0 <= k < |[h] + rest| - 1 ==> ([h] + rest)[k].end <= ([h] + rest)[k + 1].start
  {
    var r := [h] + rest;
    forall k | 0 <= k < |r| - 1
      ensures r[k].end <= r[k + 1].start
    {
      if k > 0 {
        assert r[k] == rest[k - 1] && r[k + 1] == rest[k];
      }
    }
  }

  /** A position outside a run of hits lies outside its first hit and outside the others. */
  lemma UncoveredTail(h: Hit, rest: seq<Hit>, q: nat)
    requires Uncovered([h] + rest, q)
    ensures q < h.start || h.end <= q
    ensures Uncovered(rest, q)
  {
    assert ([h] + rest)[0] == h;
    forall k | 0 <= k < |rest|
      ensures q < rest[k].start || rest[k].end <= q
    {
      assert ([h] + rest)[k + 1] == rest[k];
    }
  }

  lemma UncoveredSame(a: seq<Hit>, b: seq<Hit>, q: nat)
    requires a == b && Uncovered(a, q)
    ensures Uncovered(b, q)
  {
  }

  /** No match starts at any position the scan tried and passed over. */
  lemma {:induction false} MatchesComplete(pat: Pattern, s: string, from: nat, q: nat)
    requires from <= q < |s|
    requires Uncovered(Matches(pat, s, from), q)
    ensures MatchAt(pat, s, q).None?
    decreases |s| - from
  {
    if MatchAt(pat, s, from).Some? {
      var h := MatchAt(pat, s, from).value;
      var rest := Matches(pat, s, h.end);
      MatchesStep(pat, s, from, h);
      UncoveredTail(h, rest, q);
      if q != from {
        MatchesComplete(pat, s, h.end, q);
      }
    } else if q > from {
      MatchesSkip(pat, s, from);
      UncoveredSame(Matches(pat, s, from), Matches(pat, s, from + 1), q);
      MatchesComplete(pat, s, from + 1, q);
    }
  }

  /** One step of the scan: a match at `from` is reported and the scan resumes at its end. */
  lemma MatchesStep(pat: Pattern, s: string, from: nat, h: Hit)
    requires from < |s| && MatchAt(pat, s, from) == Some(h)
    ensures Matches(pat, s, from) == [h] + Matches(pat, s, h.end)
  {
  }

  /** A position where nothing matches is skipped. */
  lemma MatchesSkip(pat: Pattern, s: string, from: nat)
    requires from < |s| && MatchAt(pat, s, from).None?
    ensures Matches(pat, s, from) == Matches(pat, s, from + 1)
  {
  }

  /** The scan ends at the end of the text. */
  lemma MatchesEnd(pat: Pattern, s: string, from: nat)
    requires from >= |s|
    ensures Matches(pat, s, from) == []
  {
  }

  /** A text the expression covers with two back-to-back matches. */
  lemma TwoMatches(pat: Pattern, s: string, h0: Hit, h1: Hit)
    requires 0 < |s| && MatchAt(pat, s, 0) == Some(h0)
    requires h0.end < |s| && MatchAt(pat, s, h0.end) == Some(h1) && h1.end == |s|
    ensures Matches(pat, s, 0) == [h0, h1]
  {
    MatchesStep(pat, s, 0, h0);
    MatchesStep(pat, s, h0.end, h1);
    MatchesEnd(pat, s, h1.end);
  }

  /** What `replace` substitutes for a match in `extractDescription`: `$1` for links, nothing otherwise. */
  function Replacement(pat: Pattern, h: Hit): string {
    if pat == Link then h.group1 else ""
  }

  /** `s.replace(regex, replacement)` with the global flag, continuing from `from`. */
  function ReplaceAllFrom(pat: Pattern, s: string, from: nat): string
    decreases |s| - from
  {
    if from >= |s| then ""
    else
      match MatchAt(pat, s, from)
      case Some(h) => Replacement(pat, h) + ReplaceAllFrom(pat, s, h.end)
      case None => [s[from]] + ReplaceAllFrom(pat, s, from + 1)
  }

  function ReplaceAll(pat: Pattern, s: string): string {
    ReplaceAllFrom(pat, s, 0)
  }

  /** Where the expression never matches, replacing changes nothing. */
  lemma {:induction false} ReplaceAllNoMatch(pat: Pattern, s: string, from: nat)
    requires from <= |s|
    requires Matches(pat, s, from) == []
    ensures ReplaceAllFrom(pat, s, from) == s[from..]
    decreases |s| - from
  {
    if from < |s| {
      assert Uncovered([], from);
      ReplaceAllNoMatch(pat, s, from + 1);
    }
  }

  /** The Markdown text of an image with the given alt text and target. */
  function ImageMarkup(alt: string, target: string): string {
    "![" + alt + "](" + target + ")"
  }

  /** `Find` stops at the first `c`. */
  lemma FindFirst(s: string, c: char, from: nat, q: nat)
    requires from <= q < |s| && s[q] == c
    requires forall k :: from <= k < q ==> s[k] != c
    ensures Find(s, c, from) == Some(q)
    decreases q - from
  {
    if from < q {
      FindFirst(s, c, from + 1, q);
    }
  }

  /** `ImageMarkup(alt, url)` stands in `s` at `p`, given by where its pieces sit. */
  predicate MarkupAt(s: string, p: nat, alt: string, url: string) {
    var q := p + 2 + |alt|;
    var m := q + 2 + |url|;
    && m < |s|
    && s[p] == '!' && s[p + 1] == '[' && s[q] == ']' && s[q + 1] == '(' && s[m] == ')'
    && s[p + 2..q] == alt && s[q + 2..m] == url
  }

  lemma MarkupLength(alt: string, url: string)
    ensures |ImageMarkup(alt, url)| == |alt| + |url| + 5
  {
  }

  /** Where the pieces of `pre + ImageMarkup(alt, url) + tail` sit. */
  lemma ImageLayout(pre: string, alt: string, url: string, tail: string)
    ensures MarkupAt(pre + ImageMarkup(alt, url) + tail, |pre|, alt, url)
  {
    var s := pre + ImageMarkup(alt, url) + tail;
    assert s == pre + "![" + alt + "](" + url + ")" + tail;
  }

  /** The markup stands at `p` of any text holding it there. */
  lemma MarkupAtOfSlice(s: string, p: nat, alt: string, url: string)
    requires p + |ImageMarkup(alt, url)| <= |s| && s[p..p + |ImageMarkup(alt, url)|] == ImageMarkup(alt, url)
    ensures MarkupAt(s, p, alt, url)
  {
    var n := |ImageMarkup(alt, url)|;
    SplitAround(s, p, n);
    ImageLayout(s[..p], alt, url, s[p + n..]);
  }

  lemma SplitAround(s: string, p: nat, n: nat)
    requires p + n <= |s|
    ensures s == s[..p] + s[p..p + n] + s[p + n..]
  {
  }

  /** The `]` closing an alt text without `]` is the first one. */
  lemma FindAltEnd(s: string, p: nat, alt: string)
    requires p + 2 + |alt| < |s| && s[p + 2..p + 2 + |alt|] == alt && s[p + 2 + |alt|] == ']' && ']' !in alt
    ensures Find(s, ']', p + 2) == Some(p + 2 + |alt|)
  {
    forall k | p + 2 <= k < p + 2 + |alt| ensures s[k] != ']' {
      assert s[k] == alt[k - p - 2];
    }
    FindFirst(s, ']', p + 2, p + 2 + |alt|);
  }

  /** The `)` closing a URL without `)` is the first one. */
  lemma FindUrlEnd(s: string, u: nat, url: string)
    requires u + |url| < |s| && s[u..u + |url|] == url && s[u + |url|] == ')' && ')' !in url
    ensures Find(s, ')', u) == Some(u + |url|)
  {
    forall k | u <= k < u + |url| ensures s[k] != ')' {
      assert s[k] == url[k - u];
    }
    FindFirst(s, ')', u, u + |url|);
  }

  /** The scheme of a URL found at `u`. */
  lemma SchemeAt(s: string, u: nat, scheme: string, rest: string)
    requires scheme == "http://" || scheme == "https://"
    requires u + |scheme| + |rest| <= |s| && s[u..u + |scheme| + |rest|] == scheme + rest
    ensures SchemeLength(s, u) == |scheme|
  {
    forall k | 0 <= k < |scheme| ensures s[u + k] == scheme[k] {
      assert s[u + k] == s[u..u + |scheme| + |rest|][k] == (scheme + rest)[k];
    }
  }

  /** The image expression at `p`, given where its delimiters are. */
  lemma HttpImageFromDelimiters(s: string, p: nat, q: nat, m: nat, schemeLength: nat, alt: string, url: string, end: nat)
    requires p + 2 <= q && q + 2 + schemeLength < m < |s|
    requires s[p] == '!' && s[p + 1] == '['
    requires Find(s, ']', p + 2) == Some(q)
    requires schemeLength > 0 && SchemeLength(s, q + 2) == schemeLength
    requires s[q + 1] == '(' && Find(s, ')', q + 2) == Some(m)
    requires alt == s[p + 2..q] && url == s[q + 2..m] && end == m + 1
    ensures MatchAt(HttpImage, s, p) == Some(Hit(p, end, alt, url))
  {
    assert ParenTarget(s, q, q + 2 + schemeLength) == Some(m);
  }

  /**
   * The image expression recognises the markup it describes, wherever it
   * stands: an alt text without `]` and an http(s) URL with a non-empty,
   * `)`-free remainder are matched exactly, and the groups give them back.
   */
  lemma HttpImageAt(s: string, p: nat, alt: string, scheme: string, rest: string)
    requires scheme == "http://" || scheme == "https://"
    requires ']' !in alt && ')' !in rest && |rest| > 0
    requires MarkupAt(s, p, alt, scheme + rest)
    ensures MatchAt(HttpImage, s, p) == Some(Hit(p, p + |alt| + |scheme + rest| + 5, alt, scheme + rest))
  {
    var url := scheme + rest;
    var q := p + 2 + |alt|;
    var u := q + 2;
    var m := u + |url|;
    FindAltEnd(s, p, alt);
    SchemeAt(s, u, scheme, rest);
    SchemeHasNoParen(scheme, rest);
    FindUrlEnd(s, u, url);
    HttpImageFromDelimiters(s, p, q, m, |scheme|, alt, url, p + |alt| + |url| + 5);
  }

  lemma SchemeHasNoParen(scheme: string, rest: string)
    requires scheme == "http://" || scheme == "https://"
    requires ')' !in rest
    ensures ')' !in scheme + rest
  {
    var url := scheme + rest;
    assert forall k :: 0 <= k < |scheme| ==> url[k] == scheme[k];
    assert forall k :: |scheme| <= k < |url| ==> url[k] == rest[k - |scheme|];
  }

  /** The text a layout describes is the markup itself. */
  lemma MarkupSlice(s: string, p: nat, alt: string, url: string)
    requires MarkupAt(s, p, alt, url)
    ensures s[p..p + |alt| + |url| + 5] == ImageMarkup(alt, url)
  {
    var q := p + 2 + |alt|;
    var m := q + 2 + |url|;
    assert s[p..p + 2] == "![";
    assert s[q..q + 2] == "](";
    assert s[m..m + 1] == ")";
    assert s[p..m + 1] == s[p..p + 2] + s[p + 2..q] + s[q..q + 2] + s[q + 2..m] + s[m..m + 1];
  }

  /**
   * Conversely, whatever the image expression matches is image markup: an
   * alt text without `]` and an http(s) URL without `)`, with something
   * after the scheme.
   */
  lemma HttpImageSound(s: string, p: nat, h: Hit)
    requires MatchAt(HttpImage, s, p) == Some(h)
    ensures s[h.start..h.end] == ImageMarkup(h.group1, h.group2)
    ensures ']' !in h.group1 && IsHttpUrl(h.group2)
  {
    var q, m, n := HttpImageParts(s, p, h);
    PartsAreMarkup(s, p, q, m, n, h);
  }

  /** Where the matcher found the delimiters of an image it matched. */
  lemma HttpImageParts(s: string, p: nat, h: Hit) returns (q: nat, m: nat, n: nat)
    requires MatchAt(HttpImage, s, p) == Some(h)
    ensures p + 2 <= q && q + 2 + n < m < |s| && n > 0 && n == SchemeLength(s, q + 2)
    ensures s[p] == '!' && s[p + 1] == '[' && s[q] == ']' && s[q + 1] == '(' && s[m] == ')'
    ensures forall k :: p + 2 <= k < q ==> s[k] != ']'
    ensures forall k :: q + 2 <= k < m ==> s[k] != ')'
    ensures h == Hit(p, m + 1, s[p + 2..q], s[q + 2..m])
  {
    q := Find(s, ']', p + 2).value;
    n := SchemeLength(s, q + 2);
    m := Find(s, ')', q + 2).value;
  }

  /** Delimiters where the matcher found them make image markup with an http(s) URL. */
  lemma PartsAreMarkup(s: string, p: nat, q: nat, m: nat, n: nat, h: Hit)
    requires p + 2 <= q && q + 2 + n < m < |s| && n > 0 && n == SchemeLength(s, q + 2)
    requires s[p] == '!' && s[p + 1] == '[' && s[q] == ']' && s[q + 1] == '(' && s[m] == ')'
    requires forall k :: p + 2 <= k < q ==> s[k] != ']'
    requires forall k :: q + 2 <= k < m ==> s[k] != ')'
    requires h == Hit(p, m + 1, s[p + 2..q], s[q + 2..m])
    ensures s[h.start..h.end] == ImageMarkup(h.group1, h.group2)
    ensures ']' !in h.group1 && IsHttpUrl(h.group2)
  {
    var alt, url := h.group1, h.group2;
    forall k | 0 <= k < |alt| ensures alt[k] != ']' {
      assert alt[k] == s[p + 2 + k];
    }
    forall k | 0 <= k < |url| ensures url[k] != ')' {
      assert url[k] == s[q + 2 + k];
    }
    SchemeOfUrl(s, q + 2, m, n);
    assert MarkupAt(s, p, alt, url);
    MarkupSlice(s, p, alt, url);
  }

  /** The scheme the matcher found at `u` begins the URL captured from `u` to `m`. */
  lemma SchemeOfUrl(s: string, u: nat, m: nat, n: nat)
    requires u + n < m <= |s| && n == SchemeLength(s, u) && n > 0
    ensures n == 8 ==> s[u..m][..8] == "https://"
    ensures n == 7 ==> s[u..m][..7] == "http://"
  {
    var url := s[u..m];
    assert forall k :: 0 <= k < n ==> url[k] == s[u + k];
  }

  /** An http(s) URL the image expression accepts as a target: something after the scheme and no `)`. */
  predicate IsHttpUrl(url: string) {
    ')' !in url && ((|url| > 8 && url[..8] == "https://") || (|url| > 7 && url[..7] == "http://"))
  }

  /** `HttpImageAt` for a URL given whole. */
  lemma HttpUrlAt(s: string, p: nat, alt: string, url: string)
    requires ']' !in alt && IsHttpUrl(url)
    requires MarkupAt(s, p, alt, url)
    ensures MatchAt(HttpImage, s, p) == Some(Hit(p, p + |alt| + |url| + 5, alt, url))
  {
    var n := if |url| > 8 && url[..8] == "https://" then 8 else 7;
    var scheme, rest := url[..n], url[n..];
    assert url == scheme + rest;
    assert ')' !in rest by {
      forall k | 0 <= k < |rest| ensures rest[k] != ')' {
        assert rest[k] == url[n + k];
      }
    }
    HttpImageAt(s, p, alt, scheme, rest);
  }

  /**
   * Image markup with an http(s) URL and an alt text without `]` is matched
   * whole wherever it stands, and the groups give back the alt text and the URL.
   */
  lemma HttpUrlMatches(pre: string, alt: string, url: string, tail: string)
    requires ']' !in alt && IsHttpUrl(url)
    ensures var s := pre + ImageMarkup(alt, url) + tail;
      MatchAt(HttpImage, s, |pre|) == Some(Hit(|pre|, |pre| + |ImageMarkup(alt, url)|, alt, url))
  {
    ImageLayout(pre, alt, url, tail);
    MarkupLength(alt, url);
    HttpUrlAt(pre + ImageMarkup(alt, url) + tail, |pre|, alt, url);
  }

  /** `HttpUrlMatches` for markup found at `p` in any text. */
  lemma HttpUrlMatchesAt(s: string, p: nat, alt: string, url: string)
    requires ']' !in alt && IsHttpUrl(url)
    requires p + |ImageMarkup(alt, url)| <= |s| && s[p..p + |ImageMarkup(alt, url)|] == ImageMarkup(alt, url)
    ensures MatchAt(HttpImage, s, p) == Some(Hit(p, p + |ImageMarkup(alt, url)|, alt, url))
  {
    MarkupAtOfSlice(s, p, alt, url);
    MarkupLength(alt, url);
    HttpUrlAt(s, p, alt, url);
  }
}
