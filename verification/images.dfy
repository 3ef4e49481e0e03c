/**
 * `processMarkdownContent` and the local path `downloadImage` produces
 * (scripts/notion-sync.js): every http(s) image in the Markdown is handed
 * to the downloader in order as `image-1`, `image-2`, ...; each download
 * that succeeds yields a rewrite of the image's markup to its local path,
 * and the rewrites are then applied one after another, each to the first
 * occurrence of its original text.
 */
module Images {
  import opened Wrappers
  import opened JsString
  import Decimal
  import opened MarkdownPatterns

  /** What the Markdown converter hands over: a string, an object with an optional `parent`, or anything else. */
  datatype MdInput = MdText(text: string) | MdObject(parent: Option<string>) | MdAbsent

  /** What a download came to: the extension of the URL finally fetched (after redirects), or a failure. */
  datatype Download = Saved(extname: string) | Failed(message: string)

  /** One call of the downloader. */
  datatype Request = Request(url: string, imageName: string)

  /** A pending replacement: the full match and the markup that replaces it. */
  datatype Rewrite = Rewrite(original: string, replacement: string)

  datatype Collected = Collected(requests: seq<Request>, rewrites: seq<Rewrite>)

  datatype Processed = Processed(markdown: string, requests: seq<Request>)

  /** `parent || ''` for an object, the string itself for a string, `''` otherwise. */
  function MarkdownOf(input: MdInput): string {
    match input
    case MdText(text) => text
    case MdObject(parent) => if parent.Some? then parent.value else ""
    case MdAbsent => ""
  }

  const ImagesRoute := "/notion-blog/images/notion/"

  /** The name the k-th image (counting from 1) is saved under. */
  function ImageName(k: nat): string {
    "image-" + Decimal.FromNat(k)
  }

  /** `path.extname(...) || '.png'` */
  function FileExtension(extname: string): (r: string)
    ensures |r| > 0
    ensures extname != "" ==> r == extname
  {
    if extname == "" then ".png" else extname
  }

  /** The public path of a saved image. */
  function LocalImagePath(pageId: string, imageName: string, extname: string): string {
    ImagesRoute + pageId + "/" + imageName + FileExtension(extname)
  }

  /** The rewrite for a match whose download was saved under `imageName`. */
  function RewriteFor(s: string, h: Hit, pageId: string, imageName: string, extname: string): Rewrite
    requires h.start <= h.end <= |s|
  {
    Rewrite(s[h.start..h.end], ImageMarkup(h.group1, LocalImagePath(pageId, imageName, extname)))
  }

  predicate HitsIn(s: string, hits: seq<Hit>) {
    forall k :: 0 <= k < |hits| ==> hits[k].start <= hits[k].end <= |s|
  }

  /**
   * The `exec` loop: the counter is incremented before each download, so
   * the k-th match is requested as `image-(counter + k + 1)`; only saved
   * downloads contribute a rewrite, in match order.
   */
  function Collect(s: string, hits: seq<Hit>, counter: nat, pageId: string, download: (string, string) -> Download): (c: Collected)
    requires HitsIn(s, hits)
    ensures |c.requests| == |hits| && |c.rewrites| <= |hits|
    ensures forall k {:trigger c.requests[k]} :: 0 <= k < |hits| ==> c.requests[k] == Request(hits[k].group2, ImageName(counter + k + 1))
    decreases |hits|
  {
    if hits == [] then Collected([], [])
    else
      var h := hits[0];
      var name := ImageName(counter + 1);
      var rest := Collect(s, hits[1..], counter + 1, pageId, download);
      var rewrites := if download(h.group2, name).Saved?
        then [RewriteFor(s, h, pageId, name, download(h.group2, name).extname)] + rest.rewrites
        else rest.rewrites;
      Collected([Request(h.group2, name)] + rest.requests, rewrites)
  }

  /** What the downloader makes of the k-th match of `hits`. */
  function OutcomeAt(hits: seq<Hit>, counter: nat, download: (string, string) -> Download, k: nat): Download
    requires k < |hits|
  {
    download(hits[k].group2, ImageName(counter + k + 1))
  }

  /** The rewrite for the k-th match of `hits` if its download is saved. */
  function RewriteAt(s: string, hits: seq<Hit>, counter: nat, pageId: string, download: (string, string) -> Download, k: nat): Rewrite
    requires HitsIn(s, hits) && k < |hits|
  {
    var outcome := OutcomeAt(hits, counter, download, k);
    RewriteFor(s, hits[k], pageId, ImageName(counter + k + 1), if outcome.Saved? then outcome.extname else "")
  }

  /** Dropping the first match shifts the counter by one. */
  lemma OutcomeShift(hits: seq<Hit>, counter: nat, download: (string, string) -> Download, k: nat)
    requires k + 1 < |hits|
    ensures OutcomeAt(hits[1..], counter + 1, download, k) == OutcomeAt(hits, counter, download, k + 1)
  {
    assert hits[1..][k] == hits[k + 1];
    assert counter + 1 + k + 1 == counter + (k + 1) + 1;
  }

  predicate AllFailed(hits: seq<Hit>, counter: nat, download: (string, string) -> Download) {
    forall k :: 0 <= k < |hits| ==> OutcomeAt(hits, counter, download, k).Failed?
  }

  predicate AllSaved(hits: seq<Hit>, counter: nat, download: (string, string) -> Download) {
    forall k :: 0 <= k < |hits| ==> OutcomeAt(hits, counter, download, k).Saved?
  }

  /** With every download failing, nothing is rewritten. */
  lemma {:induction false} CollectAllFailed(s: string, hits: seq<Hit>, counter: nat, pageId: string, download: (string, string) -> Download)
    requires HitsIn(s, hits)
    requires AllFailed(hits, counter, download)
    ensures Collect(s, hits, counter, pageId, download).rewrites == []
    decreases |hits|
  {
    if hits != [] {
      var tail, next := hits[1..], counter + 1;
      assert OutcomeAt(hits, counter, download, 0).Failed?;
      forall k | 0 <= k < |tail| ensures OutcomeAt(tail, next, download, k).Failed? {
        OutcomeShift(hits, counter, download, k);
      }
      CollectAllFailed(s, tail, counter + 1, pageId, download);
    }
  }

  /** With every download saved, the k-th rewrite belongs to the k-th match and the k-th image name. */
  lemma {:induction false} CollectAllSaved(s: string, hits: seq<Hit>, counter: nat, pageId: string, download: (string, string) -> Download)
    requires HitsIn(s, hits)
    requires AllSaved(hits, counter, download)
    ensures var c := Collect(s, hits, counter, pageId, download);
      |c.rewrites| == |hits| &&
      forall k :: 0 <= k < |hits| ==> c.rewrites[k] == RewriteAt(s, hits, counter, pageId, download, k)
    decreases |hits|
  {
    if hits != [] {
      var tail, next := hits[1..], counter + 1;
      assert OutcomeAt(hits, counter, download, 0).Saved?;
      forall k | 0 <= k < |tail| ensures OutcomeAt(tail, next, download, k).Saved? {
        OutcomeShift(hits, counter, download, k);
      }
      CollectAllSaved(s, tail, counter + 1, pageId, download);
      var c := Collect(s, hits, counter, pageId, download);
      var rest := Collect(s, tail, counter + 1, pageId, download);
      assert c.rewrites == [RewriteAt(s, hits, counter, pageId, download, 0)] + rest.rewrites;
      forall k | 1 <= k < |hits| ensures c.rewrites[k] == RewriteAt(s, hits, counter, pageId, download, k) {
        OutcomeShift(hits, counter, download, k - 1);
        assert c.rewrites[k] == rest.rewrites[k - 1] == RewriteAt(s, tail, counter + 1, pageId, download, k - 1);
        assert tail[k - 1] == hits[k];
        assert counter + 1 + (k - 1) + 1 == counter + k + 1;
      }
    }
  }

  /** Which matches' downloads are saved, match by match. */
  function SavedFlags(hits: seq<Hit>, counter: nat, download: (string, string) -> Download): (saved: seq<bool>)
    ensures |saved| == |hits|
    ensures forall k :: 0 <= k < |hits| ==> saved[k] == OutcomeAt(hits, counter, download, k).Saved?
  {
    seq(|hits|, k requires 0 <= k < |hits| => OutcomeAt(hits, counter, download, k).Saved?)
  }

  /** The positions, from `from` on, whose flag is set. */
  function SavedIndices(saved: seq<bool>, from: nat): (idx: seq<nat>)
    ensures forall j :: 0 <= j < |idx| ==> from <= idx[j] < |saved|
    decreases |saved| - from
  {
    if from >= |saved| then []
    else (if saved[from] then [from] else []) + SavedIndices(saved, from + 1)
  }

  /** `SavedIndices` lists its positions in increasing order. */
  lemma {:induction false} SavedIndicesIncreasing(saved: seq<bool>, from: nat)
    ensures forall j, k :: 0 <= j < k < |SavedIndices(saved, from)| ==> SavedIndices(saved, from)[j] < SavedIndices(saved, from)[k]
    decreases |saved| - from
  {
    if from < |saved| {
      SavedIndicesIncreasing(saved, from + 1);
      var idx' := SavedIndices(saved, from + 1);
      if saved[from] {
        var idx := SavedIndices(saved, from);
        assert idx == [from] + idx';
        forall j, k | 0 <= j < k < |idx| ensures idx[j] < idx[k] {
          assert idx[k] == idx'[k - 1];
          if j > 0 {
            assert idx[j] == idx'[j - 1];
          }
        }
      }
    }
  }

  /** `SavedIndices` holds exactly the positions from `from` on whose flag is set. */
  lemma {:induction false} SavedIndicesFilter(saved: seq<bool>, from: nat)
    ensures var idx := SavedIndices(saved, from);
      forall k :: from <= k < |saved| ==> (k in idx <==> saved[k])
    decreases |saved| - from
  {
    if from < |saved| {
      SavedIndicesFilter(saved, from + 1);
      var idx' := SavedIndices(saved, from + 1);
      var head: seq<nat> := if saved[from] then [from] else [];
      assert SavedIndices(saved, from) == head + idx';
      assert from !in idx';
    }
  }

  /** The rewrites of the matches at the positions `idx`, in that order. */
  function RewritesAt(s: string, hits: seq<Hit>, counter: nat, pageId: string, download: (string, string) -> Download, idx: seq<nat>): (r: seq<Rewrite>)
    requires HitsIn(s, hits) && forall j :: 0 <= j < |idx| ==> idx[j] < |hits|
    ensures |r| == |idx|
  {
    if idx == [] then [] else [RewriteAt(s, hits, counter, pageId, download, idx[0])] + RewritesAt(s, hits, counter, pageId, download, idx[1..])
  }

  /** The j-th rewrite of `RewritesAt` belongs to the j-th position of `idx`. */
  lemma {:induction false} RewritesAtElement(s: string, hits: seq<Hit>, counter: nat, pageId: string, download: (string, string) -> Download, idx: seq<nat>)
    requires HitsIn(s, hits) && forall j :: 0 <= j < |idx| ==> idx[j] < |hits|
    ensures var r := RewritesAt(s, hits, counter, pageId, download, idx);
      forall j :: 0 <= j < |idx| ==> r[j] == RewriteAt(s, hits, counter, pageId, download, idx[j])
  {
    if idx != [] {
      RewritesAtElement(s, hits, counter, pageId, download, idx[1..]);
    }
  }

  /** Peeling position `from` off the saved positions: its rewrite, if saved, goes in front. */
  lemma SavedRewritesStep(s: string, hits: seq<Hit>, counter: nat, pageId: string, download: (string, string) -> Download, from: nat)
    requires HitsIn(s, hits) && from < |hits|
    ensures RewritesAt(s, hits, counter, pageId, download, SavedIndices(SavedFlags(hits, counter, download), from))
      == (if OutcomeAt(hits, counter, download, from).Saved? then [RewriteAt(s, hits, counter, pageId, download, from)] else [])
         + RewritesAt(s, hits, counter, pageId, download, SavedIndices(SavedFlags(hits, counter, download), from + 1))
  {
    var idx' := SavedIndices(SavedFlags(hits, counter, download), from + 1);
    if OutcomeAt(hits, counter, download, from).Saved? {
      assert ([from] + idx')[1..] == idx';
    } else {
      assert SavedIndices(SavedFlags(hits, counter, download), from) == idx';
    }
  }

  /** The rewrites of the saved matches, in match order. */
  function SavedRewrites(s: string, hits: seq<Hit>, counter: nat, pageId: string, download: (string, string) -> Download): seq<Rewrite>
    requires HitsIn(s, hits)
  {
    RewritesAt(s, hits, counter, pageId, download, SavedIndices(SavedFlags(hits, counter, download), 0))
  }

  /**
   * Whatever the mix of outcomes, the rewrites collected from match `from`
   * on are those of the saved matches, in order, each with its own image
   * number.
   */
  lemma {:induction false} CollectFrom(s: string, hits: seq<Hit>, counter: nat, pageId: string, download: (string, string) -> Download, from: nat)
    requires HitsIn(s, hits) && from <= |hits|
    ensures HitsIn(s, hits[from..])
    ensures Collect(s, hits[from..], counter + from, pageId, download).rewrites
      == RewritesAt(s, hits, counter, pageId, download, SavedIndices(SavedFlags(hits, counter, download), from))
    decreases |hits| - from
  {
    SuffixIn(s, hits, from);
    if from < |hits| {
      CollectFrom(s, hits, counter, pageId, download, from + 1);
      CollectFromStep(s, hits, counter, pageId, download, from);
    } else {
      assert hits[from..] == [];
    }
  }

  lemma CollectFromStep(s: string, hits: seq<Hit>, counter: nat, pageId: string, download: (string, string) -> Download, from: nat)
    requires HitsIn(s, hits) && from < |hits| && HitsIn(s, hits[from + 1..])
    requires Collect(s, hits[from + 1..], counter + (from + 1), pageId, download).rewrites
      == RewritesAt(s, hits, counter, pageId, download, SavedIndices(SavedFlags(hits, counter, download), from + 1))
    ensures HitsIn(s, hits[from..])
    ensures Collect(s, hits[from..], counter + from, pageId, download).rewrites
      == RewritesAt(s, hits, counter, pageId, download, SavedIndices(SavedFlags(hits, counter, download), from))
  {
    CollectStep(s, hits, counter, pageId, download, from);
    SavedRewritesStep(s, hits, counter, pageId, download, from);
  }

  lemma SuffixIn(s: string, hits: seq<Hit>, from: nat)
    requires HitsIn(s, hits) && from <= |hits|
    ensures HitsIn(s, hits[from..])
  {
    assert forall k :: 0 <= k < |hits| - from ==> hits[from..][k] == hits[from + k];
  }

  /** One step of `Collect` from match `from`: the match's rewrite, if saved, goes in front of the rest. */
  lemma CollectStep(s: string, hits: seq<Hit>, counter: nat, pageId: string, download: (string, string) -> Download, from: nat)
    requires HitsIn(s, hits) && from < |hits|
    ensures HitsIn(s, hits[from..]) && HitsIn(s, hits[from + 1..])
    ensures Collect(s, hits[from..], counter + from, pageId, download).rewrites
      == (if OutcomeAt(hits, counter, download, from).Saved? then [RewriteAt(s, hits, counter, pageId, download, from)] else [])
         + Collect(s, hits[from + 1..], counter + (from + 1), pageId, download).rewrites
  {
    SuffixIn(s, hits, from);
    SuffixIn(s, hits, from + 1);
    var tail := hits[from..];
    assert tail[0] == hits[from];
    assert tail[1..] == hits[from + 1..];
  }

  /** The rewrites `Collect` gathers are exactly `SavedRewrites`. */
  lemma CollectRewrites(s: string, hits: seq<Hit>, counter: nat, pageId: string, download: (string, string) -> Download)
    requires HitsIn(s, hits)
    ensures Collect(s, hits, counter, pageId, download).rewrites == SavedRewrites(s, hits, counter, pageId, download)
  {
    CollectFrom(s, hits, counter, pageId, download, 0);
    assert hits[0..] == hits;
  }

  /** The second loop: each rewrite replaces the first occurrence of its original in the text so far. */
  function ApplyRewrites(s: string, rewrites: seq<Rewrite>): string
    decreases |rewrites|
  {
    if rewrites == [] then s
    else ApplyRewrites(ReplaceFirst(s, rewrites[0].original, rewrites[0].replacement), rewrites[1..])
  }

  lemma MatchesIn(s: string)
    ensures HitsIn(s, Matches(HttpImage, s, 0))
  {
    var hits := Matches(HttpImage, s, 0);
    forall k | 0 <= k < |hits| ensures hits[k].start <= hits[k].end <= |s| {
      assert MatchAt(HttpImage, s, hits[k].start) == Some(hits[k]);
    }
  }

  function ProcessMarkdownContent(input: MdInput, pageId: string, download: (string, string) -> Download): (r: Processed)
    ensures var hits := Matches(HttpImage, MarkdownOf(input), 0);
      |r.requests| == |hits| &&
      forall k :: 0 <= k < |hits| ==> r.requests[k] == Request(hits[k].group2, ImageName(k + 1))
  {
    var markdown := MarkdownOf(input);
    var hits := Matches(HttpImage, markdown, 0);
    MatchesIn(markdown);
    var collected := Collect(markdown, hits, 0, pageId, download);
    Processed(ApplyRewrites(markdown, collected.rewrites), collected.requests)
  }

  /**
   * The processed Markdown, for any mix of download outcomes: the rewrite
   * of each saved match, in match order, replaces the first occurrence of
   * that match's text in the text so far.
   */
  lemma ProcessRewrites(input: MdInput, pageId: string, download: (string, string) -> Download)
    ensures HitsIn(MarkdownOf(input), Matches(HttpImage, MarkdownOf(input), 0))
    ensures var markdown := MarkdownOf(input);
      ProcessMarkdownContent(input, pageId, download).markdown
      == ApplyRewrites(markdown, SavedRewrites(markdown, Matches(HttpImage, markdown, 0), 0, pageId, download))
  {
    var markdown := MarkdownOf(input);
    MatchesIn(markdown);
    CollectRewrites(markdown, Matches(HttpImage, markdown, 0), 0, pageId, download);
  }

  /** With every download failing (or no image at all), the Markdown comes back unchanged. */
  lemma ProcessAllFailed(input: MdInput, pageId: string, download: (string, string) -> Download)
    requires AllFailed(Matches(HttpImage, MarkdownOf(input), 0), 0, download)
    ensures ProcessMarkdownContent(input, pageId, download).markdown == MarkdownOf(input)
  {
    var markdown := MarkdownOf(input);
    MatchesIn(markdown);
    CollectAllFailed(markdown, Matches(HttpImage, markdown, 0), 0, pageId, download);
  }

  /** A URL `https.get` accepts: its scheme is `https:`. */
  predicate IsHttpsUrl(url: string) {
    |url| >= 6 && url[..6] == "https:"
  }

  /** A downloader that, like `https.get`, refuses every URL whose scheme is not `https:`. */
  ghost predicate HttpsOnly(download: (string, string) -> Download) {
    forall url, name :: !IsHttpsUrl(url) ==> download(url, name).Failed?
  }

  /**
   * With such a downloader, Markdown whose image URLs are all `http:`
   * comes back unchanged: those images are requested but never rewritten.
   */
  lemma ProcessHttpOnly(input: MdInput, pageId: string, download: (string, string) -> Download)
    requires HttpsOnly(download)
    requires forall k :: 0 <= k < |Matches(HttpImage, MarkdownOf(input), 0)| ==> !IsHttpsUrl(Matches(HttpImage, MarkdownOf(input), 0)[k].group2)
    ensures ProcessMarkdownContent(input, pageId, download).markdown == MarkdownOf(input)
  {
    RefusedAllFailed(Matches(HttpImage, MarkdownOf(input), 0), download);
    ProcessAllFailed(input, pageId, download);
  }

  lemma RefusedAllFailed(hits: seq<Hit>, download: (string, string) -> Download)
    requires HttpsOnly(download)
    requires forall k :: 0 <= k < |hits| ==> !IsHttpsUrl(hits[k].group2)
    ensures AllFailed(hits, 0, download)
  {
    forall k | 0 <= k < |hits| ensures OutcomeAt(hits, 0, download, k).Failed? {
      var url := hits[k].group2;
      assert !IsHttpsUrl(url);
      assert download(url, ImageName(k + 1)).Failed?;
    }
  }

  predicate NoDollar(s: string) {
    forall k :: 0 <= k < |s| ==> s[k] != '$'
  }

  /** A local image path contains `$` only if the page id or the extension does. */
  lemma LocalImagePathNoDollar(pageId: string, k: nat, extname: string)
    requires NoDollar(pageId) && NoDollar(extname)
    ensures NoDollar(LocalImagePath(pageId, ImageName(k), extname))
  {
    var digits := Decimal.FromNat(k);
    var path := ImagesRoute + pageId + "/" + "image-" + digits + FileExtension(extname);
    assert LocalImagePath(pageId, ImageName(k), extname) == path;
    forall i | 0 <= i < |path| ensures path[i] != '$' {
      var a := |ImagesRoute| + |pageId| + 1 + 6;
      if i < |ImagesRoute| {
      } else if i < |ImagesRoute| + |pageId| {
        assert path[i] == pageId[i - |ImagesRoute|];
      } else if i < a {
      } else if i < a + |digits| {
        assert path[i] == digits[i - a];
        assert Decimal.IsDigit(digits[i - a]);
      } else {
        assert path[i] == FileExtension(extname)[i - a - |digits|];
      }
    }
  }

  /** The markup that replaces a saved image. */
  lemma ImageMarkupNoDollar(alt: string, target: string)
    requires NoDollar(alt) && NoDollar(target)
    ensures NoDollar(ImageMarkup(alt, target))
  {
    var m := ImageMarkup(alt, target);
    assert m == "![" + alt + "](" + target + ")";
    forall i | 0 <= i < |m| ensures m[i] != '$' {
      if 2 <= i < 2 + |alt| {
        assert m[i] == alt[i - 2];
      } else if 4 + |alt| <= i < 4 + |alt| + |target| {
        assert m[i] == target[i - 4 - |alt|];
      }
    }
  }

  /** `processMarkdownContent` on a string whose image matches are known. */
  lemma ProcessText(s: string, pageId: string, download: (string, string) -> Download, hits: seq<Hit>)
    requires Matches(HttpImage, s, 0) == hits
    ensures HitsIn(s, hits)
    ensures ProcessMarkdownContent(MdText(s), pageId, download).markdown == ApplyRewrites(s, Collect(s, hits, 0, pageId, download).rewrites)
  {
    MatchesIn(s);
  }

  /** The rewrites collected for the first match, then for the rest. */
  lemma CollectCons(s: string, h: Hit, rest: seq<Hit>, counter: nat, pageId: string, download: (string, string) -> Download)
    requires HitsIn(s, [h] + rest)
    ensures HitsIn(s, rest)
    ensures var outcome := download(h.group2, ImageName(counter + 1));
      Collect(s, [h] + rest, counter, pageId, download).rewrites
      == (if outcome.Saved? then [RewriteFor(s, h, pageId, ImageName(counter + 1), outcome.extname)] else [])
         + Collect(s, rest, counter + 1, pageId, download).rewrites
  {
    assert ([h] + rest)[1..] == rest;
    assert forall k :: 0 <= k < |rest| ==> rest[k] == ([h] + rest)[k + 1];
  }

  /** The rewrites collected for one match. */
  lemma CollectOne(s: string, h: Hit, counter: nat, pageId: string, download: (string, string) -> Download)
    requires HitsIn(s, [h])
    ensures var outcome := download(h.group2, ImageName(counter + 1));
      Collect(s, [h], counter, pageId, download).rewrites
      == if outcome.Saved? then [RewriteFor(s, h, pageId, ImageName(counter + 1), outcome.extname)] else []
  {
    assert [h][1..] == [];
  }

  /** A single rewrite whose replacement has no `$` replaces the first occurrence of its original. */
  lemma ApplyOneRewrite(s: string, original: string, replacement: string, tail: string)
    requires s == original + tail && NoDollar(replacement)
    ensures ApplyRewrites(s, [Rewrite(original, replacement)]) == replacement + tail
  {
    assert [Rewrite(original, replacement)][1..] == [];
    assert OccursAt(s, original, 0) by {
      assert s[0..|original|] == original;
    }
    ReplaceFirstLiteral(s, original, replacement, 0);
    assert s[|original|..] == tail;
  }

  /** The rewrite list a single match contributes. */
  function RewritesFor(s: string, h: Hit, pageId: string, k: nat, download: (string, string) -> Download): seq<Rewrite>
    requires h.start <= h.end <= |s|
  {
    var outcome := download(h.group2, ImageName(k));
    if outcome.Saved? then [RewriteFor(s, h, pageId, ImageName(k), outcome.extname)] else []
  }

  /** The rewrites collected for two matches. */
  lemma CollectTwo(s: string, h0: Hit, h1: Hit, pageId: string, download: (string, string) -> Download)
    requires HitsIn(s, [h0, h1])
    ensures h0.start <= h0.end <= |s| && h1.start <= h1.end <= |s|
    ensures Collect(s, [h0, h1], 0, pageId, download).rewrites
      == RewritesFor(s, h0, pageId, 1, download) + RewritesFor(s, h1, pageId, 2, download)
  {
    assert [h0, h1][0] == h0 && [h0, h1][1] == h1;
    assert [h0] + [h1] == [h0, h1];
    assert [h0, h1][0] == h0 && [h0, h1][1] == h1;
    CollectCons(s, h0, [h1], 0, pageId, download);
    CollectOne(s, h1, 1, pageId, download);
  }

  /** A single `$`-free rewrite replaces the first occurrence of its original. */
  lemma ApplyOneAt(s: string, original: string, replacement: string, i: nat)
    requires NoDollar(replacement)
    requires OccursAt(s, original, i) && forall j :: 0 <= j < i ==> !OccursAt(s, original, j)
    ensures ApplyRewrites(s, [Rewrite(original, replacement)]) == s[..i] + replacement + s[i + |original|..]
  {
    assert [Rewrite(original, replacement)][1..] == [];
    ReplaceFirstLiteral(s, original, replacement, i);
  }

  /**
   * A text holding one http(s) image at its start: when the download is
   * saved, the image's target becomes its local path under `image-1` and
   * everything else stays as it was.
   */
  lemma SingleImageRewritten(alt: string, url: string, tail: string, pageId: string, download: (string, string) -> Download)
    requires ']' !in alt && IsHttpUrl(url)
    requires Matches(HttpImage, ImageMarkup(alt, url) + tail, |ImageMarkup(alt, url)|) == []
    requires download(url, ImageName(1)).Saved?
    requires NoDollar(alt) && NoDollar(pageId) && NoDollar(download(url, ImageName(1)).extname)
    ensures ProcessMarkdownContent(MdText(ImageMarkup(alt, url) + tail), pageId, download).markdown
      == ImageMarkup(alt, LocalImagePath(pageId, ImageName(1), download(url, ImageName(1)).extname)) + tail
  {
    var x := ImageMarkup(alt, url);
    var s := x + tail;
    var ext := download(url, ImageName(1)).extname;
    var path := LocalImagePath(pageId, ImageName(1), ext);
    var h := Hit(0, |x|, alt, url);
    HeadImageMatches(alt, url, tail);
    MatchesStep(HttpImage, s, 0, h);
    ProcessText(s, pageId, download, [h]);
    CollectOne(s, h, 0, pageId, download);
    assert s[0..|x|] == x;
    LocalImagePathNoDollar(pageId, 1, ext);
    ImageMarkupNoDollar(alt, path);
    ApplyOneRewrite(s, x, ImageMarkup(alt, path), tail);
  }

  /** An image written at the head of a text is matched there. */
  lemma HeadImageMatches(a1: string, u1: string, x2: string)
    requires ']' !in a1 && IsHttpUrl(u1)
    ensures var x1 := ImageMarkup(a1, u1);
      MatchAt(HttpImage, x1 + x2, 0) == Some(Hit(0, |x1|, a1, u1))
  {
    var x1 := ImageMarkup(a1, u1);
    assert (x1 + x2)[0..|x1|] == x1;
    HttpUrlMatchesAt(x1 + x2, 0, a1, u1);
  }

  /** An image written at the end of a text is matched there. */
  lemma LastImageMatches(x1: string, a2: string, u2: string)
    requires ']' !in a2 && IsHttpUrl(u2)
    ensures var x2 := ImageMarkup(a2, u2);
      MatchAt(HttpImage, x1 + x2, |x1|) == Some(Hit(|x1|, |x1| + |x2|, a2, u2))
  {
    var x2 := ImageMarkup(a2, u2);
    assert (x1 + x2)[|x1|..|x1| + |x2|] == x2;
    HttpUrlMatchesAt(x1 + x2, |x1|, a2, u2);
  }

  /** The scan finds two images written one after the other. */
  lemma TwoImageMatches(a1: string, u1: string, a2: string, u2: string)
    requires ']' !in a1 && IsHttpUrl(u1) && ']' !in a2 && IsHttpUrl(u2)
    ensures var x1, x2 := ImageMarkup(a1, u1), ImageMarkup(a2, u2);
      Matches(HttpImage, x1 + x2, 0) == [Hit(0, |x1|, a1, u1), Hit(|x1|, |x1| + |x2|, a2, u2)]
  {
    var x1, x2 := ImageMarkup(a1, u1), ImageMarkup(a2, u2);
    MarkupLength(a1, u1);
    MarkupLength(a2, u2);
    HeadImageMatches(a1, u1, x2);
    LastImageMatches(x1, a2, u2);
    AdjacentMatches(x1, x2, a1, u1, a2, u2);
  }

  /** Two matches that cover a text end to end are all the scan finds. */
  lemma AdjacentMatches(x1: string, x2: string, a1: string, u1: string, a2: string, u2: string)
    requires 0 < |x1| && 0 < |x2|
    requires MatchAt(HttpImage, x1 + x2, 0) == Some(Hit(0, |x1|, a1, u1))
    requires MatchAt(HttpImage, x1 + x2, |x1|) == Some(Hit(|x1|, |x1| + |x2|, a2, u2))
    ensures Matches(HttpImage, x1 + x2, 0) == [Hit(0, |x1|, a1, u1), Hit(|x1|, |x1| + |x2|, a2, u2)]
  {
    TwoMatches(HttpImage, x1 + x2, Hit(0, |x1|, a1, u1), Hit(|x1|, |x1| + |x2|, a2, u2));
  }

  /** The markup a saved image is rewritten to. */
  function LocalMarkup(alt: string, pageId: string, k: nat, extname: string): string {
    ImageMarkup(alt, LocalImagePath(pageId, ImageName(k), extname))
  }

  /** The rewrite list the k-th match contributes, given the text it matched. */
  function MarkupRewrites(x: string, alt: string, url: string, pageId: string, k: nat, download: (string, string) -> Download): seq<Rewrite> {
    var outcome := download(url, ImageName(k));
    if outcome.Saved? then [Rewrite(x, LocalMarkup(alt, pageId, k, outcome.extname))] else []
  }

  /** `processMarkdownContent` on a string with exactly two image matches. */
  lemma ProcessTwo(s: string, h0: Hit, h1: Hit, pageId: string, download: (string, string) -> Download)
    requires Matches(HttpImage, s, 0) == [h0, h1]
    ensures h0.start <= h0.end <= |s| && h1.start <= h1.end <= |s|
    ensures ProcessMarkdownContent(MdText(s), pageId, download).markdown
      == ApplyRewrites(s, RewritesFor(s, h0, pageId, 1, download) + RewritesFor(s, h1, pageId, 2, download))
  {
    ProcessText(s, pageId, download, [h0, h1]);
    CollectTwo(s, h0, h1, pageId, download);
  }

  /** `processMarkdownContent` on a text covered by two matches. */
  lemma ProcessTwoMarkups(x1: string, x2: string, a1: string, u1: string, a2: string, u2: string, pageId: string, download: (string, string) -> Download)
    requires Matches(HttpImage, x1 + x2, 0) == [Hit(0, |x1|, a1, u1), Hit(|x1|, |x1| + |x2|, a2, u2)]
    ensures ProcessMarkdownContent(MdText(x1 + x2), pageId, download).markdown
      == ApplyRewrites(x1 + x2, MarkupRewrites(x1, a1, u1, pageId, 1, download) + MarkupRewrites(x2, a2, u2, pageId, 2, download))
  {
    var s := x1 + x2;
    var h0, h1 := Hit(0, |x1|, a1, u1), Hit(|x1|, |x1| + |x2|, a2, u2);
    ProcessTwo(s, h0, h1, pageId, download);
    RewritesForHalves(x1, x2, a1, u1, a2, u2, pageId, download);
  }

  /** The rewrites for two matches that split a text in two, in terms of the halves. */
  lemma RewritesForHalves(x1: string, x2: string, a1: string, u1: string, a2: string, u2: string, pageId: string, download: (string, string) -> Download)
    ensures RewritesFor(x1 + x2, Hit(0, |x1|, a1, u1), pageId, 1, download) + RewritesFor(x1 + x2, Hit(|x1|, |x1| + |x2|, a2, u2), pageId, 2, download)
      == MarkupRewrites(x1, a1, u1, pageId, 1, download) + MarkupRewrites(x2, a2, u2, pageId, 2, download)
  {
    var s := x1 + x2;
    ConcatSlices(x1, x2);
    RewritesForSlice(s, Hit(0, |x1|, a1, u1), x1, pageId, 1, download);
    RewritesForSlice(s, Hit(|x1|, |x1| + |x2|, a2, u2), x2, pageId, 2, download);
  }

  lemma ConcatSlices(x1: string, x2: string)
    ensures (x1 + x2)[0..|x1|] == x1 && (x1 + x2)[|x1|..|x1| + |x2|] == x2
  {
  }

  /** The rewrites for a match, in terms of the text it matched. */
  lemma RewritesForSlice(s: string, h: Hit, x: string, pageId: string, k: nat, download: (string, string) -> Download)
    requires h.start <= h.end <= |s| && s[h.start..h.end] == x
    ensures RewritesFor(s, h, pageId, k, download) == MarkupRewrites(x, h.group1, h.group2, pageId, k, download)
  {
  }

  /** `processMarkdownContent` on two images written one after the other. */
  lemma ProcessTwoImages(a1: string, u1: string, a2: string, u2: string, pageId: string, download: (string, string) -> Download)
    requires ']' !in a1 && IsHttpUrl(u1) && ']' !in a2 && IsHttpUrl(u2)
    ensures var x1, x2 := ImageMarkup(a1, u1), ImageMarkup(a2, u2);
      ProcessMarkdownContent(MdText(x1 + x2), pageId, download).markdown
      == ApplyRewrites(x1 + x2, MarkupRewrites(x1, a1, u1, pageId, 1, download) + MarkupRewrites(x2, a2, u2, pageId, 2, download))
  {
    var x1, x2 := ImageMarkup(a1, u1), ImageMarkup(a2, u2);
    MarkupLength(a1, u1);
    MarkupLength(a2, u2);
    HeadImageMatches(a1, u1, x2);
    LastImageMatches(x1, a2, u2);
    ProcessAdjacent(x1, x2, a1, u1, a2, u2, pageId, download);
  }

  /** `processMarkdownContent` on a text covered end to end by two matches. */
  lemma ProcessAdjacent(x1: string, x2: string, a1: string, u1: string, a2: string, u2: string, pageId: string, download: (string, string) -> Download)
    requires 0 < |x1| && 0 < |x2|
    requires MatchAt(HttpImage, x1 + x2, 0) == Some(Hit(0, |x1|, a1, u1))
    requires MatchAt(HttpImage, x1 + x2, |x1|) == Some(Hit(|x1|, |x1| + |x2|, a2, u2))
    ensures ProcessMarkdownContent(MdText(x1 + x2), pageId, download).markdown
      == ApplyRewrites(x1 + x2, MarkupRewrites(x1, a1, u1, pageId, 1, download) + MarkupRewrites(x2, a2, u2, pageId, 2, download))
  {
    AdjacentMatches(x1, x2, a1, u1, a2, u2);
    ProcessTwoMarkups(x1, x2, a1, u1, a2, u2, pageId, download);
  }

  /** A `$`-free image rewrite. */
  lemma ImageRewriteNoDollar(alt: string, pageId: string, k: nat, extname: string)
    requires NoDollar(alt) && NoDollar(pageId) && NoDollar(extname)
    ensures NoDollar(LocalMarkup(alt, pageId, k, extname))
  {
    LocalImagePathNoDollar(pageId, k, extname);
    ImageMarkupNoDollar(alt, LocalImagePath(pageId, ImageName(k), extname));
  }

  /**
   * The rewrites search the text rather than remember where their match
   * was: with the same image twice, where the first download fails and the
   * second is saved, the saved path lands on the first copy and the second
   * copy keeps its remote URL.
   */
  lemma DuplicateImageRewritesFirstCopy(alt: string, url: string, pageId: string, download: (string, string) -> Download)
    requires ']' !in alt && IsHttpUrl(url)
    requires download(url, ImageName(1)).Failed? && download(url, ImageName(2)).Saved?
    requires NoDollar(alt) && NoDollar(pageId) && NoDollar(download(url, ImageName(2)).extname)
    ensures ProcessMarkdownContent(MdText(ImageMarkup(alt, url) + ImageMarkup(alt, url)), pageId, download).markdown
      == LocalMarkup(alt, pageId, 2, download(url, ImageName(2)).extname) + ImageMarkup(alt, url)
  {
    var x := ImageMarkup(alt, url);
    var y := LocalMarkup(alt, pageId, 2, download(url, ImageName(2)).extname);
    ProcessTwoImages(alt, url, alt, url, pageId, download);
    assert MarkupRewrites(x, alt, url, pageId, 1, download) + MarkupRewrites(x, alt, url, pageId, 2, download) == [Rewrite(x, y)];
    ImageRewriteNoDollar(alt, pageId, 2, download(url, ImageName(2)).extname);
    ApplyOneRewrite(x + x, x, y, x);
  }

  /** Two images where the second download fails: the first is rewritten and the second is left exactly as it was. */
  lemma SecondDownloadFails(a1: string, u1: string, a2: string, u2: string, pageId: string, download: (string, string) -> Download)
    requires ']' !in a1 && IsHttpUrl(u1) && ']' !in a2 && IsHttpUrl(u2)
    requires download(u1, ImageName(1)).Saved? && download(u2, ImageName(2)).Failed?
    requires NoDollar(a1) && NoDollar(pageId) && NoDollar(download(u1, ImageName(1)).extname)
    ensures ProcessMarkdownContent(MdText(ImageMarkup(a1, u1) + ImageMarkup(a2, u2)), pageId, download).markdown
      == LocalMarkup(a1, pageId, 1, download(u1, ImageName(1)).extname) + ImageMarkup(a2, u2)
  {
    var x1, x2 := ImageMarkup(a1, u1), ImageMarkup(a2, u2);
    var y1 := LocalMarkup(a1, pageId, 1, download(u1, ImageName(1)).extname);
    ProcessTwoImages(a1, u1, a2, u2, pageId, download);
    assert MarkupRewrites(x1, a1, u1, pageId, 1, download) + MarkupRewrites(x2, a2, u2, pageId, 2, download) == [Rewrite(x1, y1)];
    ImageRewriteNoDollar(a1, pageId, 1, download(u1, ImageName(1)).extname);
    ApplyOneRewrite(x1 + x2, x1, y1, x2);
  }

  /**
   * Two images where the first download fails: the first is left exactly
   * as it was and the second is rewritten, provided the second image's
   * markup does not also occur earlier in the text (see
   * `DuplicateImageRewritesFirstCopy` for what happens when it does).
   */
  lemma FirstDownloadFails(a1: string, u1: string, a2: string, u2: string, pageId: string, download: (string, string) -> Download)
    requires ']' !in a1 && IsHttpUrl(u1) && ']' !in a2 && IsHttpUrl(u2)
    requires download(u1, ImageName(1)).Failed? && download(u2, ImageName(2)).Saved?
    requires NoDollar(a2) && NoDollar(pageId) && NoDollar(download(u2, ImageName(2)).extname)
    requires forall j :: 0 <= j < |ImageMarkup(a1, u1)| ==> !OccursAt(ImageMarkup(a1, u1) + ImageMarkup(a2, u2), ImageMarkup(a2, u2), j)
    ensures ProcessMarkdownContent(MdText(ImageMarkup(a1, u1) + ImageMarkup(a2, u2)), pageId, download).markdown
      == ImageMarkup(a1, u1) + LocalMarkup(a2, pageId, 2, download(u2, ImageName(2)).extname)
  {
    var x1, x2 := ImageMarkup(a1, u1), ImageMarkup(a2, u2);
    var y2 := LocalMarkup(a2, pageId, 2, download(u2, ImageName(2)).extname);
    ProcessTwoImages(a1, u1, a2, u2, pageId, download);
    assert MarkupRewrites(x1, a1, u1, pageId, 1, download) + MarkupRewrites(x2, a2, u2, pageId, 2, download) == [Rewrite(x2, y2)];
    ImageRewriteNoDollar(a2, pageId, 2, download(u2, ImageName(2)).extname);
    ApplySecond(x1, x2, y2);
  }

  /** A `$`-free rewrite of text that first occurs after a prefix. */
  lemma ApplySecond(x1: string, x2: string, y2: string)
    requires NoDollar(y2)
    requires forall j :: 0 <= j < |x1| ==> !OccursAt(x1 + x2, x2, j)
    ensures ApplyRewrites(x1 + x2, [Rewrite(x2, y2)]) == x1 + y2
  {
    var s := x1 + x2;
    assert OccursAt(s, x2, |x1|) by {
      assert s[|x1|..|x1| + |x2|] == x2;
    }
    ApplyOneAt(s, x2, y2, |x1|);
    assert s[..|x1|] == x1 && s[|x1| + |x2|..] == [];
  }
}
