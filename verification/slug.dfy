/**
 * Slug assignment (scripts/notion-sync.js, `sanitizeSlug` and
 * `generateUniqueSlug`): a title is normalised into a file-name-safe base
 * and a per-run counter map turns repeated bases into `base-1`, `base-2`, ...
 */
module Slug {
  import opened JsString
  import Decimal

  // ---------------------------------------------------------------------
  // sanitizeSlug
  // ---------------------------------------------------------------------

  /** The class kept by `/[^\w\-가-힣]/g`. */
  predicate IsKeptChar(c: char) {
    IsWordChar(c) || c == '-' || IsHangulSyllable(c)
  }

  /** Code points a sanitised slug may contain. */
  predicate IsSlugChar(c: char) {
    IsLowerAscii(c) || IsAsciiDigit(c) || c == '_' || c == '-' || IsHangulSyllable(c)
  }

  predicate IsNotUpperAscii(c: char) {
    !IsUpperAscii(c)
  }

  predicate NoDoubleHyphen(s: string) {
    forall i :: 0 <= i < |s| - 1 ==> !(s[i] == '-' && s[i + 1] == '-')
  }

  /** The shape every output of `sanitizeSlug` has. */
  predicate IsCleanSlug(s: string) {
    && (forall i :: 0 <= i < |s| ==> IsSlugChar(s[i]))
    && NoDoubleHyphen(s)
    && (|s| > 0 ==> s[0] != '-' && s[|s| - 1] != '-')
  }

  predicate NoUpperAscii(s: string) {
    forall i :: 0 <= i < |s| ==> !IsUpperAscii(s[i])
  }

  predicate AllSlugChars(s: string) {
    forall i :: 0 <= i < |s| ==> IsSlugChar(s[i])
  }

  /** `.replace(/\s+/g, '-')` */
  function SpacesToHyphens(s: string): (r: string)
    ensures forall i :: 0 <= i < |r| ==> !IsSpace(r[i])
    ensures NoUpperAscii(s) ==> NoUpperAscii(r)
    ensures (forall i :: 0 <= i < |s| ==> !IsSpace(s[i])) ==> r == s
  {
    CollapseRunsPreserves(s, IsSpace, '-', IsNotUpperAscii);
    CollapseRuns(s, IsSpace, '-')
  }

  /** `.replace(/[^\w\-가-힣]/g, '')` */
  function KeepSlugChars(s: string): (r: string)
    ensures forall i :: 0 <= i < |r| ==> IsKeptChar(r[i])
    ensures NoUpperAscii(s) ==> AllSlugChars(r)
    ensures AllSlugChars(s) ==> r == s
  {
    FilterPreserves(s, IsKeptChar, IsNotUpperAscii);
    Filter(s, IsKeptChar)
  }

  /** `.replace(/\-\-+/g, '-')`: a single hyphen stays, a longer run becomes one hyphen. */
  function CollapseHyphens(s: string): (r: string)
    ensures NoDoubleHyphen(r)
    ensures AllSlugChars(s) ==> AllSlugChars(r)
    ensures NoDoubleHyphen(s) ==> r == s
  {
    CollapseRunsPreserves(s, IsHyphen, '-', IsSlugChar);
    CollapseRunsUnchanged(s, IsHyphen, '-');
    CollapseRuns(s, IsHyphen, '-')
  }

  /** `.replace(/^-+/, '')` */
  function StripLeadingHyphens(s: string): (r: string)
    ensures |r| > 0 ==> r[0] != '-'
    ensures AllSlugChars(s) ==> AllSlugChars(r)
    ensures NoDoubleHyphen(s) ==> NoDoubleHyphen(r)
    ensures |s| > 0 && s[0] != '-' ==> r == s
  {
    s[RunLength(s, IsHyphen)..]
  }

  /** `.replace(/-+$/, '')` (no `m` flag: `$` is the end of the string). */
  function StripTrailingHyphens(s: string): (r: string)
    ensures |r| <= |s|
    ensures |r| > 0 ==> r[|r| - 1] != '-' && r[0] == s[0]
    ensures AllSlugChars(s) ==> AllSlugChars(r)
    ensures NoDoubleHyphen(s) ==> NoDoubleHyphen(r)
    ensures |s| > 0 && s[|s| - 1] != '-' ==> r == s
  {
    s[..|s| - TrailingRun(s, IsHyphen)]
  }

  /**
   * `sanitizeSlug(text)`: lower-case, turn white-space runs into one hyphen,
   * drop everything outside `\w`, `-` and the Hangul syllables, collapse
   * hyphen runs, and strip hyphens at both ends.
   */
  function SanitizeSlug(text: string): (r: string)
    ensures IsCleanSlug(r)
  {
    SanitizeLowered(ToLowerCase(text))
  }

  /** The passes of `sanitizeSlug` after `toLowerCase`. */
  function SanitizeLowered(lowered: string): (r: string)
    ensures NoUpperAscii(lowered) ==> IsCleanSlug(r)
  {
    StripTrailingHyphens(StripLeadingHyphens(CollapseHyphens(KeepSlugChars(SpacesToHyphens(lowered)))))
  }

  /** A clean slug is a fixed point of `sanitizeSlug`. */
  lemma SanitizeClean(s: string)
    requires IsCleanSlug(s)
    ensures SanitizeSlug(s) == s
  {
    CleanIsLower(s);
    CleanPassesFixed(s);
  }

  lemma CleanIsLower(s: string)
    requires AllSlugChars(s)
    ensures ToLowerCase(s) == s
  {
    assert forall i :: 0 <= i < |s| ==> ToLowerChar(s[i]) == [s[i]];
    ToLowerCaseFixed(s);
  }

  lemma CleanPassesFixed(s: string)
    requires IsCleanSlug(s)
    ensures SanitizeLowered(s) == s
  {
    assert forall i :: 0 <= i < |s| ==> !IsSpace(s[i]);
    var spaced := SpacesToHyphens(s);
    assert spaced == s;
    var kept := KeepSlugChars(spaced);
    assert kept == s;
    var collapsed := CollapseHyphens(kept);
    assert collapsed == s;
  }

  /** `sanitizeSlug` is idempotent. */
  lemma SanitizeIdempotent(text: string)
    ensures SanitizeSlug(SanitizeSlug(text)) == SanitizeSlug(text)
  {
    SanitizeClean(SanitizeSlug(text));
  }

  /** KELVIN SIGN is not ASCII, yet lower-cases to the ASCII letter `k`, which the slug keeps. */
  lemma KelvinSignBecomesK(kelvin: char)
    requires kelvin == '\U{212A}'
    ensures SanitizeSlug([kelvin]) == "k"
  {
    KelvinLowerCase(kelvin);
    assert ToLowerCase("k") == "k" by {
      ToLowerCaseFixed("k");
    }
    SanitizeClean("k");
  }

  lemma KelvinLowerCase(kelvin: char)
    requires kelvin == '\U{212A}'
    ensures ToLowerCase([kelvin]) == "k"
  {
    assert ToLowerCase([kelvin]) == ToLowerChar(kelvin) + ToLowerCase([]);
  }

  // ---------------------------------------------------------------------
  // generateUniqueSlug
  // ---------------------------------------------------------------------

  /** The counter map `slugCache`: base slug to the number of times it was handed out. */
  type SlugCache = map<string, nat>

  /** How many times `base` has been handed out according to `cache`. */
  function Count(cache: SlugCache, base: string): nat {
    if base in cache then cache[base] else 0
  }

  /** `base-n`, the suffixed form of a base slug. */
  function Suffixed(base: string, n: nat): string {
    base + "-" + Decimal.FromNat(n)
  }

  datatype Assigned = Assigned(slug: string, cache: SlugCache)

  /**
   * One request for `base` against the counter map: the first request
   * returns the base and records 1; a later request returns
   * `base-<count>` and increments the count. No other counter moves.
   */
  function Claim(cache: SlugCache, base: string): (r: Assigned)
    ensures r.cache.Keys == cache.Keys + {base}
    ensures Count(r.cache, base) == Count(cache, base) + 1
    ensures forall b :: b in cache && b != base ==> r.cache[b] == cache[b]
    ensures base !in cache ==> r.slug == base
    ensures base in cache ==> r.slug == Suffixed(base, cache[base])
  {
    if base !in cache then Assigned(base, cache[base := 1])
    else Assigned(Suffixed(base, cache[base]), cache[base := cache[base] + 1])
  }

  /** `generateUniqueSlug(title)`: a request for the sanitised title. */
  function GenerateUniqueSlug(cache: SlugCache, title: string): (r: Assigned)
    ensures r.cache.Keys == cache.Keys + {SanitizeSlug(title)}
    ensures Count(r.cache, SanitizeSlug(title)) == Count(cache, SanitizeSlug(title)) + 1
    ensures forall b :: b in cache && b != SanitizeSlug(title) ==> r.cache[b] == cache[b]
    ensures SanitizeSlug(title) !in cache ==> r.slug == SanitizeSlug(title)
    ensures SanitizeSlug(title) in cache ==> r.slug == Suffixed(SanitizeSlug(title), cache[SanitizeSlug(title)])
  {
    Claim(cache, SanitizeSlug(title))
  }

  datatype AssignedAll = AssignedAll(slugs: seq<string>, cache: SlugCache)

  /** Successive requests, one per base, threading the counter map. */
  function ClaimAll(cache: SlugCache, bases: seq<string>): (r: AssignedAll)
    ensures |r.slugs| == |bases|
    decreases |bases|
  {
    if |bases| == 0 then AssignedAll([], cache)
    else
      var first := Claim(cache, bases[0]);
      var rest := ClaimAll(first.cache, bases[1..]);
      AssignedAll([first.slug] + rest.slugs, rest.cache)
  }

  /** The base slug of every title, in order. */
  function BasesOf(titles: seq<string>): (r: seq<string>)
    ensures |r| == |titles|
    ensures forall i :: 0 <= i < |titles| ==> r[i] == SanitizeSlug(titles[i])
  {
    seq(|titles|, i requires 0 <= i < |titles| => SanitizeSlug(titles[i]))
  }

  /** Successive `generateUniqueSlug` calls, one per title. */
  function GenerateAll(cache: SlugCache, titles: seq<string>): AssignedAll {
    ClaimAll(cache, BasesOf(titles))
  }

  /** How many of the bases equal `base`. */
  function Occurrences(bases: seq<string>, base: string): nat
    decreases |bases|
  {
    if |bases| == 0 then 0
    else (if bases[0] == base then 1 else 0) + Occurrences(bases[1..], base)
  }

  /** After a sequence of requests, each base's counter has grown by the number of requests for it. */
  lemma {:induction false} ClaimAllCounts(cache: SlugCache, bases: seq<string>, base: string)
    ensures Count(ClaimAll(cache, bases).cache, base) == Count(cache, base) + Occurrences(bases, base)
    decreases |bases|
  {
    if |bases| > 0 {
      ClaimAllCounts(Claim(cache, bases[0]).cache, bases[1..], base);
    }
  }

  /** Requests for a base already handed out `c > 0` times yield `base-c`, `base-(c+1)`, ... */
  lemma {:induction false} ClaimAllSameBaseFrom(cache: SlugCache, bases: seq<string>, base: string)
    requires base in cache && cache[base] > 0
    requires forall i :: 0 <= i < |bases| ==> bases[i] == base
    ensures forall i :: 0 <= i < |bases| ==> ClaimAll(cache, bases).slugs[i] == Suffixed(base, cache[base] + i)
    ensures Count(ClaimAll(cache, bases).cache, base) == cache[base] + |bases|
    decreases |bases|
  {
    if |bases| > 0 {
      assert bases[0] == base;
      var first := Claim(cache, bases[0]);
      var rest := ClaimAll(first.cache, bases[1..]);
      assert ClaimAll(cache, bases) == AssignedAll([first.slug] + rest.slugs, rest.cache);
      assert forall i :: 0 <= i < |bases[1..]| ==> bases[1..][i] == bases[i + 1];
      ClaimAllSameBaseFrom(first.cache, bases[1..], base);
      ConsSuffixes(first.slug, rest.slugs, base, cache[base]);
    }
  }

  /** `base-n` in front of `base-(n+1), base-(n+2), ...` counts up from `n`. */
  lemma ConsSuffixes(first: string, rest: seq<string>, base: string, n: nat)
    requires first == Suffixed(base, n)
    requires forall i :: 0 <= i < |rest| ==> rest[i] == Suffixed(base, n + 1 + i)
    ensures forall i :: 0 <= i < |rest| + 1 ==> ([first] + rest)[i] == Suffixed(base, n + i)
  {
    forall i | 0 <= i < |rest| + 1
      ensures ([first] + rest)[i] == Suffixed(base, n + i)
    {
      if i > 0 {
        assert ([first] + rest)[i] == rest[i - 1];
      }
    }
  }

  /**
   * N requests for one fresh base yield `base, base-1, ..., base-(N-1)`,
   * pairwise distinct, and leave that base's counter at N.
   */
  lemma ClaimAllSameBase(cache: SlugCache, bases: seq<string>, base: string)
    requires base !in cache
    requires |bases| > 0
    requires forall i :: 0 <= i < |bases| ==> bases[i] == base
    ensures ClaimAll(cache, bases).slugs[0] == base
    ensures forall i :: 1 <= i < |bases| ==> ClaimAll(cache, bases).slugs[i] == Suffixed(base, i)
    ensures Count(ClaimAll(cache, bases).cache, base) == |bases|
    ensures forall i, j :: 0 <= i < j < |bases| ==> ClaimAll(cache, bases).slugs[i] != ClaimAll(cache, bases).slugs[j]
  {
    ClaimAllSameBaseFrom(Claim(cache, base).cache, bases[1..], base);
    var slugs := ClaimAll(cache, bases).slugs;
    assert slugs[0] == base;
    forall i | 1 <= i < |bases|
      ensures slugs[i] == Suffixed(base, i)
    {
      assert slugs[i] == ClaimAll(Claim(cache, base).cache, bases[1..]).slugs[i - 1];
    }
    SuffixesDistinct(base, slugs);
  }

  /** `base, base-1, base-2, ...` are pairwise distinct. */
  lemma SuffixesDistinct(base: string, slugs: seq<string>)
    requires |slugs| > 0 && slugs[0] == base
    requires forall i :: 1 <= i < |slugs| ==> slugs[i] == Suffixed(base, i)
    ensures forall i, j :: 0 <= i < j < |slugs| ==> slugs[i] != slugs[j]
  {
    forall i, j | 0 <= i < j < |slugs|
      ensures slugs[i] != slugs[j]
    {
      if i == 0 {
        assert |slugs[i]| < |slugs[j]|;
      } else if slugs[i] == slugs[j] {
        SuffixedInjective(base, i, j);
      }
    }
  }

  lemma SuffixedInjective(base: string, m: nat, n: nat)
    requires Suffixed(base, m) == Suffixed(base, n)
    ensures m == n
  {
    assert Decimal.FromNat(m) == Suffixed(base, m)[|base| + 1..];
    assert Decimal.FromNat(n) == Suffixed(base, n)[|base| + 1..];
    Decimal.FromNatInjective(m, n);
  }

  /**
   * For N titles with one fresh base, `generateUniqueSlug` returns
   * `base, base-1, ..., base-(N-1)`, leaves the base's counter at N and
   * every other base's counter where it was.
   */
  lemma GenerateAllSameBase(cache: SlugCache, titles: seq<string>, base: string)
    requires base !in cache
    requires |titles| > 0
    requires forall i :: 0 <= i < |titles| ==> SanitizeSlug(titles[i]) == base
    ensures GenerateAll(cache, titles).slugs[0] == base
    ensures forall i :: 1 <= i < |titles| ==> GenerateAll(cache, titles).slugs[i] == Suffixed(base, i)
    ensures Count(GenerateAll(cache, titles).cache, base) == |titles|
    ensures forall b :: b != base ==> Count(GenerateAll(cache, titles).cache, b) == Count(cache, b)
  {
    var bases := BasesOf(titles);
    ClaimAllSameBase(cache, bases, base);
    forall b | b != base
      ensures Count(ClaimAll(cache, bases).cache, b) == Count(cache, b)
    {
      ClaimAllCounts(cache, bases, b);
      OccurrencesOther(bases, base, b);
    }
  }

  lemma {:induction false} OccurrencesOther(bases: seq<string>, base: string, other: string)
    requires forall i :: 0 <= i < |bases| ==> bases[i] == base
    requires other != base
    ensures Occurrences(bases, other) == 0
    decreases |bases|
  {
    if |bases| > 0 {
      OccurrencesOther(bases[1..], base, other);
    }
  }

  /**
   * Uniqueness holds per base only: for any non-empty clean slug `b`, the
   * titles `b`, `b`, `b-1` receive the slugs `b`, `b-1`, `b-1`, so the third
   * page's file overwrites the second's.
   */
  lemma CrossBaseCollision(b: string)
    requires IsCleanSlug(b) && |b| > 0
    ensures GenerateAll(map[], [b, b, Suffixed(b, 1)]).slugs == [b, Suffixed(b, 1), Suffixed(b, 1)]
  {
    var b1 := Suffixed(b, 1);
    SuffixedClean(b, 1);
    BasesOfClean([b, b, b1]);
    ClaimAllCollision(b, b1);
  }

  /** Titles that already are clean slugs are their own bases. */
  lemma BasesOfClean(titles: seq<string>)
    requires forall i :: 0 <= i < |titles| ==> IsCleanSlug(titles[i])
    ensures BasesOf(titles) == titles
  {
    forall i | 0 <= i < |titles|
      ensures BasesOf(titles)[i] == titles[i]
    {
      SanitizeClean(titles[i]);
    }
  }

  /** A suffixed form of a non-empty clean slug is itself a clean slug. */
  lemma SuffixedClean(b: string, n: nat)
    requires IsCleanSlug(b) && |b| > 0
    ensures IsCleanSlug(Suffixed(b, n))
  {
    var d := Decimal.FromNat(n);
    var r := Suffixed(b, n);
    assert r == b + "-" + d;
    assert forall i :: 0 <= i < |b| ==> r[i] == b[i];
    assert r[|b|] == '-';
    assert forall i :: |b| < i < |r| ==> r[i] == d[i - |b| - 1];
    assert forall i :: 0 <= i < |d| ==> Decimal.IsDigit(d[i]);
  }

  lemma ClaimAllCollision(b: string, b1: string)
    requires b1 == Suffixed(b, 1)
    ensures ClaimAll(map[], [b, b, b1]).slugs == [b, b1, b1]
  {
    var c1 := map[b := 1];
    var c2 := map[b := 2];
    assert b1 != b by {
      assert |b1| > |b|;
    }
    assert Claim(map[], b) == Assigned(b, c1);
    assert Claim(c1, b) == Assigned(b1, c2);
    assert Claim(c2, b1).slug == b1;
    assert [b, b, b1][1..] == [b, b1];
    assert [b, b1][1..] == [b1];
    assert ClaimAll(c2, [b1]).slugs == [b1];
    assert ClaimAll(c1, [b, b1]).slugs == [b1, b1];
  }
}
