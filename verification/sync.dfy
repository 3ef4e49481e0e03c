/**
 * `convertPageToMarkdown` and `syncNotion` (scripts/notion-sync.js): the
 * run that clears the posts directory of Markdown files, discovers the
 * page tree, and converts the pages one after another into post files.
 *
 * The posts directory is a map from file name to content. The Notion
 * Markdown converter, the image downloader and the file writes are
 * parameters (`Services`); creating directories, logging and the closing
 * `git status` check are not part of this model.
 */
module Sync {
  import opened Wrappers
  import opened JsString
  import opened Notion
  import opened Slug
  import opened TreeWalker
  import Images
  import Description
  import FrontMatter

  /** The posts directory: file name to content. */
  type Directory = map<string, string>

  /**
   * What the run cannot see, as functions of their inputs:
   * `markdown(id)` is what `n2m.pageToMarkdown` and `toMarkdownString`
   * produce for a page (an error if either throws),
   * `download(pageId, url, imageName)` is how `downloadImage` ends, and
   * `writable(fileName)` says whether `fs.writeFile` succeeds.
   */
  datatype Services = Services(
    markdown: string -> Result<Images.MdInput>,
    download: (string, string, string) -> Images.Download,
    writable: string -> bool)

  /** `{ slug, fileName }`, the value a successful conversion returns. */
  datatype Outcome = Outcome(slug: string, fileName: string)

  /** A post file to be written: its slug and its content. */
  datatype Post = Post(slug: string, content: string)

  /** One conversion: the slug counters afterwards and the file written, if any. */
  datatype PageStep = PageStep(cache: SlugCache, post: Option<Post>)

  /** The state the page loop threads: counters, directory, results so far. */
  datatype SyncState = SyncState(cache: SlugCache, posts: Directory, results: seq<Outcome>)

  /** What a run leaves behind: the directory and the results, or the discovery error. */
  datatype SyncRun = SyncRun(posts: Directory, result: Result<seq<Outcome>>)

  // ---------------------------------------------------------------------
  // Clearing the directory
  // ---------------------------------------------------------------------

  /** `file.endsWith('.md')` */
  predicate EndsWithMd(name: string) {
    |name| >= 3 && name[|name| - 3..] == ".md"
  }

  /** The clear step: every `.md` file is removed, every other file is kept as it was. */
  function ClearMarkdown(dir: Directory): (r: Directory)
    ensures forall n :: n in r ==> !EndsWithMd(n)
    ensures forall n :: !EndsWithMd(n) ==> (n in r <==> n in dir)
    ensures forall n :: n in r ==> n in dir && r[n] == dir[n]
  {
    map n | n in dir && !EndsWithMd(n) :: dir[n]
  }

  /** A consequence of `ClearMarkdown`'s contract: clearing twice clears nothing more. */
  lemma ClearIdempotent(dir: Directory)
    ensures ClearMarkdown(ClearMarkdown(dir)) == ClearMarkdown(dir)
  {
  }

  /** `${slug}.md` */
  function FileNameOf(slug: string): (r: string)
    ensures EndsWithMd(r)
    ensures |r| == |slug| + 3 && r[..|slug|] == slug
  {
    assert (slug + ".md")[|slug|..] == ".md";
    slug + ".md"
  }

  // ---------------------------------------------------------------------
  // One page
  // ---------------------------------------------------------------------

  /** The post file for a page whose processed Markdown is `content`; the quoted fields escape only `"`. */
  function PostContent(record: PageRecord, content: string): string {
    FrontMatter.DocumentAsWritten(PostHeader(record, content), content)
  }

  /** The header of that post; the description comes from the processed Markdown. */
  function PostHeader(record: PageRecord, content: string): FrontMatter.Header {
    FrontMatter.HeaderOf(
      GetPageTitle(record.page),
      Description.ExtractDescription(content, Description.DefaultMaxLength),
      record.page.lastEditedTime,
      RemoveHyphens(record.page.id),
      record.parentTitle,
      record.parent,
      record.hierarchy,
      record.level)
  }

  /** The page's Markdown after `processMarkdownContent`, downloading into the page's hyphen-free id. */
  function PageMarkdown(record: PageRecord, services: Services, input: Images.MdInput): string {
    var pageId := RemoveHyphens(record.page.id);
    Images.ProcessMarkdownContent(input, pageId, (url, imageName) => services.download(pageId, url, imageName)).markdown
  }

  /**
   * `convertPageToMarkdown(pageInfo)`. The slug is taken before anything
   * can fail, so a page that fails still uses up its slug. The Markdown
   * conversion or the write failing makes the result `null`; image
   * downloads failing does not.
   */
  function ConvertPage(cache: SlugCache, record: PageRecord, services: Services): (r: PageStep)
    ensures r.cache == GenerateUniqueSlug(cache, GetPageTitle(record.page)).cache
    ensures r.post.Some? <==> services.markdown(record.page.id).Ok? && services.writable(FileNameOf(GenerateUniqueSlug(cache, GetPageTitle(record.page)).slug))
    ensures r.post.Some? ==> r.post.value.slug == GenerateUniqueSlug(cache, GetPageTitle(record.page)).slug
    ensures r.post.Some? ==> r.post.value.content == PostContent(record, PageMarkdown(record, services, services.markdown(record.page.id).value))
  {
    var claimed := GenerateUniqueSlug(cache, GetPageTitle(record.page));
    match services.markdown(record.page.id)
    case Err(_) => PageStep(claimed.cache, None)
    case Ok(input) =>
      var content := PageMarkdown(record, services, input);
      var fileName := FileNameOf(claimed.slug);
      if !services.writable(fileName) then PageStep(claimed.cache, None)
      else PageStep(claimed.cache, Some(Post(claimed.slug, PostContent(record, content))))
  }

  /**
   * The file written for a page reads back as the page's header and its
   * processed Markdown, provided no field of the header holds a backslash
   * (one that does is misread, see `FrontMatter.AsWrittenMisreadsBackslash`).
   */
  lemma PostReadsBack(record: PageRecord, content: string)
    requires FrontMatter.WellFormed(PostHeader(record, content))
    requires FrontMatter.NoBackslash(PostHeader(record, content).title) && FrontMatter.RestNoBackslash(PostHeader(record, content))
    ensures FrontMatter.ParseDocument(PostContent(record, content)) == Some(FrontMatter.Read(PostHeader(record, content), content))
  {
    FrontMatter.AsWrittenRoundTrip(PostHeader(record, content), content);
  }

  // ---------------------------------------------------------------------
  // The page loop
  // ---------------------------------------------------------------------

  /** The titles of the records, in order. */
  function TitlesOf(records: seq<PageRecord>): (r: seq<string>)
    ensures |r| == |records|
    ensures forall i :: 0 <= i < |records| ==> r[i] == GetPageTitle(records[i].page)
  {
    seq(|records|, i requires 0 <= i < |records| => GetPageTitle(records[i].page))
  }

  /** Some result of the loop writes the file `n`. */
  predicate WrittenBy(results: seq<Outcome>, n: string) {
    exists k :: 0 <= k < |results| && results[k].fileName == n
  }

  lemma WrittenByCons(o: Outcome, results: seq<Outcome>, n: string)
    requires WrittenBy(results, n) || o.fileName == n
    ensures WrittenBy([o] + results, n)
  {
    if o.fileName != n {
      var k :| 0 <= k < |results| && results[k].fileName == n;
      assert ([o] + results)[k + 1] == results[k];
    } else {
      assert ([o] + results)[0] == o;
    }
  }

  /**
   * The `for (const pageInfo of pagesInfo)` loop for any conversion
   * `convert`: pages are converted in order, each result that is not
   * `null` is kept, and a later file with the same name replaces an
   * earlier one. Files other than `.md` files are never touched, and every
   * `.md` file present afterwards was there before or was written by a
   * kept result.
   */
  function RunPages(cache: SlugCache, posts: Directory, records: seq<PageRecord>, convert: (SlugCache, PageRecord) -> PageStep): (r: SyncState)
    ensures |r.results| <= |records|
    ensures RunKeeps(posts, r)
    decreases |records|
  {
    if |records| == 0 then SyncState(cache, posts, [])
    else
      var step := convert(cache, records[0]);
      match step.post
      case None => RunPages(step.cache, posts, records[1..], convert)
      case Some(post) =>
        var fileName := FileNameOf(post.slug);
        var rest := RunPages(step.cache, posts[fileName := post.content], records[1..], convert);
        KeepStep(posts, post, rest);
        SyncState(rest.cache, rest.posts, [Outcome(post.slug, fileName)] + rest.results)
  }

  /**
   * What the loop keeps of a directory `posts` in its final state `r`:
   * each result names the `.md` file of its slug, which is present; no
   * file is removed; files other than `.md` files are neither added nor
   * changed; and every file added was written by a result.
   */
  ghost predicate RunKeeps(posts: Directory, r: SyncState) {
    && (forall k :: 0 <= k < |r.results| ==> r.results[k].fileName == FileNameOf(r.results[k].slug))
    && (forall k :: 0 <= k < |r.results| ==> r.results[k].fileName in r.posts)
    && posts.Keys <= r.posts.Keys
    && (forall n :: !EndsWithMd(n) ==> (n in r.posts <==> n in posts))
    && (forall n :: n in posts && !EndsWithMd(n) ==> r.posts[n] == posts[n])
    && (forall n :: n in r.posts && n !in posts ==> WrittenBy(r.results, n))
  }

  /** Writing one post and then running the rest keeps what the rest keeps, with the post's result in front. */
  lemma KeepStep(posts: Directory, post: Post, rest: SyncState)
    requires RunKeeps(posts[FileNameOf(post.slug) := post.content], rest)
    ensures RunKeeps(posts, SyncState(rest.cache, rest.posts, [Outcome(post.slug, FileNameOf(post.slug))] + rest.results))
  {
    var outcome := Outcome(post.slug, FileNameOf(post.slug));
    var results := [outcome] + rest.results;
    assert results[0] == outcome;
    assert forall k :: 1 <= k < |results| ==> results[k] == rest.results[k - 1];
    forall n | n in rest.posts && n !in posts
      ensures WrittenBy(results, n)
    {
      WrittenByCons(outcome, rest.results, n);
    }
  }

  /** The loop with `convertPageToMarkdown` as the conversion. */
  function SyncPages(cache: SlugCache, posts: Directory, records: seq<PageRecord>, services: Services): SyncState {
    RunPages(cache, posts, records, (c, record) => ConvertPage(c, record, services))
  }

  /** If each conversion moves the counters as one request for `bases[i]`, the loop moves them as all requests in order. */
  lemma {:induction false} RunPagesCounters(cache: SlugCache, posts: Directory, records: seq<PageRecord>,
                                            convert: (SlugCache, PageRecord) -> PageStep, bases: seq<string>)
    requires |bases| == |records|
    requires forall c, i :: 0 <= i < |records| ==> convert(c, records[i]).cache == Claim(c, bases[i]).cache
    ensures RunPages(cache, posts, records, convert).cache == ClaimAll(cache, bases).cache
    decreases |records|
  {
    if |records| > 0 {
      var step := convert(cache, records[0]);
      assert forall c, i :: 0 <= i < |records[1..]| ==> convert(c, records[1..][i]).cache == Claim(c, bases[1..][i]).cache by {
        assert forall i :: 0 <= i < |records[1..]| ==> records[1..][i] == records[i + 1] && bases[1..][i] == bases[i + 1];
      }
      assert step.cache == Claim(cache, bases[0]).cache;
      if step.post.Some? {
        RunPagesCounters(step.cache, posts[FileNameOf(step.post.value.slug) := step.post.value.content], records[1..], convert, bases[1..]);
      } else {
        RunPagesCounters(step.cache, posts, records[1..], convert, bases[1..]);
      }
    }
  }

  /** The slug counters after the loop are those of one `generateUniqueSlug` per page, whatever failed. */
  lemma SyncPagesSlugs(cache: SlugCache, posts: Directory, records: seq<PageRecord>, services: Services)
    ensures SyncPages(cache, posts, records, services).cache == GenerateAll(cache, TitlesOf(records)).cache
  {
    var convert := (c, record) => ConvertPage(c, record, services);
    var bases := BasesOf(TitlesOf(records));
    forall c, i | 0 <= i < |records|
      ensures convert(c, records[i]).cache == Claim(c, bases[i]).cache
    {
      ConvertClaims(c, records, i, services);
    }
    RunPagesCounters(cache, posts, records, convert, bases);
  }

  /** The i-th conversion claims the i-th base. */
  lemma ConvertClaims(c: SlugCache, records: seq<PageRecord>, i: nat, services: Services)
    requires i < |records|
    ensures ConvertPage(c, records[i], services).cache == Claim(c, BasesOf(TitlesOf(records))[i]).cache
    ensures ConvertPage(c, records[i], services).post.Some? ==>
      ConvertPage(c, records[i], services).post.value.slug == Claim(c, BasesOf(TitlesOf(records))[i]).slug
  {
    assert BasesOf(TitlesOf(records))[i] == SanitizeSlug(GetPageTitle(records[i].page));
  }

  /** A page whose Markdown converts, with every file writable, is written. */
  lemma ConvertSucceeds(c: SlugCache, record: PageRecord, services: Services)
    requires services.markdown(record.page.id).Ok? && forall n :: services.writable(n)
    ensures ConvertPage(c, record, services).post.Some?
  {
  }

  /** Which pages fail has no influence on the slug counters. */
  lemma SlugsIgnoreFailures(cache: SlugCache, posts: Directory, records: seq<PageRecord>, s1: Services, s2: Services)
    ensures SyncPages(cache, posts, records, s1).cache == SyncPages(cache, posts, records, s2).cache
  {
    SyncPagesSlugs(cache, posts, records, s1);
    SyncPagesSlugs(cache, posts, records, s2);
  }

  /** The slugs of the results, in order. */
  function SlugsOf(results: seq<Outcome>): (r: seq<string>)
    ensures |r| == |results|
    decreases |results|
  {
    if |results| == 0 then [] else [results[0].slug] + SlugsOf(results[1..])
  }

  lemma SlugsOfCons(o: Outcome, results: seq<Outcome>)
    ensures SlugsOf([o] + results) == [o.slug] + SlugsOf(results)
  {
    assert ([o] + results)[1..] == results;
  }

  /** If each conversion succeeds with the slug of one request for `bases[i]`, there is one result per page with those slugs. */
  lemma {:induction false} RunPagesAllSucceed(cache: SlugCache, posts: Directory, records: seq<PageRecord>,
                                              convert: (SlugCache, PageRecord) -> PageStep, bases: seq<string>)
    requires |bases| == |records|
    requires forall c, i :: 0 <= i < |records| ==> convert(c, records[i]).cache == Claim(c, bases[i]).cache
    requires forall c, i :: 0 <= i < |records| ==> convert(c, records[i]).post.Some? && convert(c, records[i]).post.value.slug == Claim(c, bases[i]).slug
    ensures SlugsOf(RunPages(cache, posts, records, convert).results) == ClaimAll(cache, bases).slugs
    decreases |records|
  {
    if |records| > 0 {
      var step := convert(cache, records[0]);
      var post := step.post.value;
      var posts' := posts[FileNameOf(post.slug) := post.content];
      assert forall c, i :: 0 <= i < |records[1..]| ==>
        && convert(c, records[1..][i]).cache == Claim(c, bases[1..][i]).cache
        && convert(c, records[1..][i]).post.Some?
        && convert(c, records[1..][i]).post.value.slug == Claim(c, bases[1..][i]).slug
      by {
        assert forall i :: 0 <= i < |records[1..]| ==> records[1..][i] == records[i + 1] && bases[1..][i] == bases[i + 1];
      }
      var rest := RunPages(step.cache, posts', records[1..], convert);
      RunPagesAllSucceed(step.cache, posts', records[1..], convert, bases[1..]);
      assert RunPages(cache, posts, records, convert).results == [Outcome(post.slug, FileNameOf(post.slug))] + rest.results;
      SlugsOfCons(Outcome(post.slug, FileNameOf(post.slug)), rest.results);
    }
  }

  /** Every page converts and writes. */
  ghost predicate AllSucceed(records: seq<PageRecord>, services: Services) {
    && (forall i :: 0 <= i < |records| ==> services.markdown(records[i].page.id).Ok?)
    && (forall n :: services.writable(n))
  }

  /** When nothing fails, there is one result per page, carrying the slugs `generateUniqueSlug` hands out. */
  lemma SyncPagesAllSucceed(cache: SlugCache, posts: Directory, records: seq<PageRecord>, services: Services)
    requires AllSucceed(records, services)
    ensures |SyncPages(cache, posts, records, services).results| == |records|
    ensures SlugsOf(SyncPages(cache, posts, records, services).results) == GenerateAll(cache, TitlesOf(records)).slugs
  {
    var convert := (c, record) => ConvertPage(c, record, services);
    var bases := BasesOf(TitlesOf(records));
    forall c, i | 0 <= i < |records|
      ensures convert(c, records[i]).cache == Claim(c, bases[i]).cache
      ensures convert(c, records[i]).post.Some? && convert(c, records[i]).post.value.slug == Claim(c, bases[i]).slug
    {
      ConvertClaims(c, records, i, services);
      ConvertSucceeds(c, records[i], services);
    }
    RunPagesAllSucceed(cache, posts, records, convert, bases);
  }

  /** When no conversion writes a file, only the slug counters move. */
  lemma {:induction false} RunPagesNoneWritten(cache: SlugCache, posts: Directory, records: seq<PageRecord>,
                                               convert: (SlugCache, PageRecord) -> PageStep)
    requires forall c, i :: 0 <= i < |records| ==> convert(c, records[i]).post.None?
    ensures RunPages(cache, posts, records, convert).posts == posts
    ensures RunPages(cache, posts, records, convert).results == []
    decreases |records|
  {
    if |records| > 0 {
      assert forall i :: 0 <= i < |records[1..]| ==> records[1..][i] == records[i + 1];
      RunPagesNoneWritten(convert(cache, records[0]).cache, posts, records[1..], convert);
    }
  }

  /** When every conversion fails, only the slug counters move. */
  lemma SyncPagesAllFail(cache: SlugCache, posts: Directory, records: seq<PageRecord>, services: Services)
    requires forall i :: 0 <= i < |records| ==> services.markdown(records[i].page.id).Err?
    ensures SyncPages(cache, posts, records, services).posts == posts
    ensures SyncPages(cache, posts, records, services).results == []
  {
    var convert := (c, record) => ConvertPage(c, record, services);
    forall c, i | 0 <= i < |records|
      ensures convert(c, records[i]).post.None?
    {
      assert services.markdown(records[i].page.id).Err?;
    }
    RunPagesNoneWritten(cache, posts, records, convert);
  }

  /** Whether a page whose conversion claims `slug` has its file written: its Markdown converts and the file is writable. */
  function Writes(services: Services): (PageRecord, string) -> bool {
    (record: PageRecord, slug: string) => services.markdown(record.page.id).Ok? && services.writable(FileNameOf(slug))
  }

  /** Whether the i-th page, claiming `slugs[i]`, has its file written. */
  function WriteFlags(records: seq<PageRecord>, writes: (PageRecord, string) -> bool, slugs: seq<string>): (ok: seq<bool>)
    requires |slugs| == |records|
    ensures |ok| == |records|
    ensures forall i :: 0 <= i < |records| ==> ok[i] == writes(records[i], slugs[i])
  {
    seq(|records|, i requires 0 <= i < |records| => writes(records[i], slugs[i]))
  }

  lemma WriteFlagsTail(records: seq<PageRecord>, writes: (PageRecord, string) -> bool, slugs: seq<string>)
    requires |slugs| == |records| > 0
    ensures WriteFlags(records, writes, slugs)[1..] == WriteFlags(records[1..], writes, slugs[1..])
  {
    assert forall i :: 0 <= i < |records| - 1 ==> records[1..][i] == records[i + 1] && slugs[1..][i] == slugs[i + 1];
  }

  /** The results of the pages at the positions `idx`, each with its own slug. */
  function OutcomesAt(slugs: seq<string>, idx: seq<nat>): (r: seq<Outcome>)
    requires forall j :: 0 <= j < |idx| ==> idx[j] < |slugs|
    ensures |r| == |idx|
    ensures forall j :: 0 <= j < |idx| ==> r[j] == Outcome(slugs[idx[j]], FileNameOf(slugs[idx[j]]))
  {
    seq(|idx|, j requires 0 <= j < |idx| => Outcome(slugs[idx[j]], FileNameOf(slugs[idx[j]])))
  }

  /** The results of the flagged pages, page by page. */
  function Kept(slugs: seq<string>, ok: seq<bool>): seq<Outcome>
    requires |ok| == |slugs|
    decreases |slugs|
  {
    if |slugs| == 0 then []
    else (if ok[0] then [Outcome(slugs[0], FileNameOf(slugs[0]))] else []) + Kept(slugs[1..], ok[1..])
  }

  lemma OutcomesAtCons(slugs: seq<string>, i: nat, idx: seq<nat>)
    requires i < |slugs| && forall j :: 0 <= j < |idx| ==> idx[j] < |slugs|
    ensures OutcomesAt(slugs, [i] + idx) == [Outcome(slugs[i], FileNameOf(slugs[i]))] + OutcomesAt(slugs, idx)
  {
    var a, b := OutcomesAt(slugs, [i] + idx), [Outcome(slugs[i], FileNameOf(slugs[i]))] + OutcomesAt(slugs, idx);
    forall j | 0 <= j < |a|
      ensures a[j] == b[j]
    {
      if j > 0 {
        assert ([i] + idx)[j] == idx[j - 1];
      }
    }
  }

  /** Peeling position `from` off the flagged positions. */
  lemma OutcomesStep(slugs: seq<string>, ok: seq<bool>, from: nat)
    requires |ok| == |slugs| && from < |ok|
    ensures OutcomesAt(slugs, Images.SavedIndices(ok, from))
      == (if ok[from] then [Outcome(slugs[from], FileNameOf(slugs[from]))] else [])
         + OutcomesAt(slugs, Images.SavedIndices(ok, from + 1))
  {
    var idx' := Images.SavedIndices(ok, from + 1);
    if ok[from] {
      OutcomesAtCons(slugs, from, idx');
    } else {
      assert Images.SavedIndices(ok, from) == idx';
    }
  }

  /** `Kept` from position `from` on is the filter of the flagged positions there. */
  lemma {:induction false} KeptFrom(slugs: seq<string>, ok: seq<bool>, from: nat)
    requires |ok| == |slugs| && from <= |ok|
    ensures Kept(slugs[from..], ok[from..]) == OutcomesAt(slugs, Images.SavedIndices(ok, from))
    decreases |ok| - from
  {
    if from < |ok| {
      KeptFrom(slugs, ok, from + 1);
      OutcomesStep(slugs, ok, from);
      assert slugs[from..][0] == slugs[from] && ok[from..][0] == ok[from];
      assert slugs[from..][1..] == slugs[from + 1..] && ok[from..][1..] == ok[from + 1..];
    } else {
      assert slugs[from..] == [];
    }
  }

  /** `Kept` is the filter of the flagged positions, in page order. */
  lemma KeptFilter(slugs: seq<string>, ok: seq<bool>)
    requires |ok| == |slugs|
    ensures Kept(slugs, ok) == OutcomesAt(slugs, Images.SavedIndices(ok, 0))
  {
    KeptFrom(slugs, ok, 0);
    assert slugs[0..] == slugs && ok[0..] == ok;
  }

  /**
   * If the i-th conversion claims one slug for `bases[i]` and keeps a
   * result exactly when `writes` holds of its page and that slug, the loop
   * keeps the results of the pages `writes` accepts, in page order.
   */
  lemma {:induction false} RunPagesKept(cache: SlugCache, posts: Directory, records: seq<PageRecord>,
                                        convert: (SlugCache, PageRecord) -> PageStep, bases: seq<string>,
                                        writes: (PageRecord, string) -> bool)
    requires |bases| == |records|
    requires forall c, i :: 0 <= i < |records| ==> convert(c, records[i]).cache == Claim(c, bases[i]).cache
    requires forall c, i :: 0 <= i < |records| ==>
      (convert(c, records[i]).post.Some? <==> writes(records[i], Claim(c, bases[i]).slug))
    requires forall c, i :: 0 <= i < |records| && convert(c, records[i]).post.Some? ==>
      convert(c, records[i]).post.value.slug == Claim(c, bases[i]).slug
    ensures var slugs := ClaimAll(cache, bases).slugs;
      RunPages(cache, posts, records, convert).results == Kept(slugs, WriteFlags(records, writes, slugs))
    decreases |records|
  {
    if |records| > 0 {
      var slugs := ClaimAll(cache, bases).slugs;
      var step := convert(cache, records[0]);
      var first := Claim(cache, bases[0]);
      assert step.cache == first.cache;
      assert slugs[0] == first.slug && slugs[1..] == ClaimAll(first.cache, bases[1..]).slugs;
      assert forall c, i :: 0 <= i < |records[1..]| ==>
        && convert(c, records[1..][i]).cache == Claim(c, bases[1..][i]).cache
        && (convert(c, records[1..][i]).post.Some? <==> writes(records[1..][i], Claim(c, bases[1..][i]).slug))
        && (convert(c, records[1..][i]).post.Some? ==> convert(c, records[1..][i]).post.value.slug == Claim(c, bases[1..][i]).slug)
      by {
        assert forall i :: 0 <= i < |records[1..]| ==> records[1..][i] == records[i + 1] && bases[1..][i] == bases[i + 1];
      }
      WriteFlagsTail(records, writes, slugs);
      var posts' := if step.post.Some? then posts[FileNameOf(step.post.value.slug) := step.post.value.content] else posts;
      RunPagesKept(step.cache, posts', records[1..], convert, bases[1..], writes);
      RunPagesStep(cache, posts, records, convert);
      assert WriteFlags(records, writes, slugs)[0] == step.post.Some?;
    }
  }

  /** One turn of the loop: the first page's result, if any, goes in front of the rest's. */
  lemma RunPagesStep(cache: SlugCache, posts: Directory, records: seq<PageRecord>, convert: (SlugCache, PageRecord) -> PageStep)
    requires |records| > 0
    ensures var step := convert(cache, records[0]);
      var posts' := if step.post.Some? then posts[FileNameOf(step.post.value.slug) := step.post.value.content] else posts;
      RunPages(cache, posts, records, convert).results
      == (if step.post.Some? then [Outcome(step.post.value.slug, FileNameOf(step.post.value.slug))] else [])
         + RunPages(step.cache, posts', records[1..], convert).results
  {
  }

  /** The slugs handed out to the pages, in order. */
  function SlugsFor(cache: SlugCache, records: seq<PageRecord>): (slugs: seq<string>)
    ensures |slugs| == |records|
  {
    GenerateAll(cache, TitlesOf(records)).slugs
  }

  /**
   * Under any services, the results of the loop are exactly the pages
   * whose Markdown converts and whose file is writable, in page order,
   * each with the slug `generateUniqueSlug` handed it: one page failing
   * does not stop the pages after it.
   */
  lemma SyncPagesResults(cache: SlugCache, posts: Directory, records: seq<PageRecord>, services: Services)
    ensures var slugs := SlugsFor(cache, records);
      SyncPages(cache, posts, records, services).results
      == OutcomesAt(slugs, Images.SavedIndices(WriteFlags(records, Writes(services), slugs), 0))
  {
    var convert := (c, record) => ConvertPage(c, record, services);
    var bases := BasesOf(TitlesOf(records));
    var writes := Writes(services);
    forall c, i | 0 <= i < |records|
      ensures convert(c, records[i]).cache == Claim(c, bases[i]).cache
      ensures convert(c, records[i]).post.Some? <==> writes(records[i], Claim(c, bases[i]).slug)
      ensures convert(c, records[i]).post.Some? ==> convert(c, records[i]).post.value.slug == Claim(c, bases[i]).slug
    {
      ConvertClaims(c, records, i, services);
    }
    RunPagesKept(cache, posts, records, convert, bases, writes);
    var slugs := SlugsFor(cache, records);
    KeptFilter(slugs, WriteFlags(records, writes, slugs));
  }

  // ---------------------------------------------------------------------
  // The run
  // ---------------------------------------------------------------------

  /**
   * `syncNotion()` on a posts directory `dir`, with the root listing
   * throwing `rootError` or returning `rootBlocks`. The slug counters start
   * empty. A discovery error ends the run after the clear step.
   */
  function SyncNotion(dir: Directory, rootError: Option<string>, rootBlocks: seq<Block>, services: Services): (r: SyncRun)
    ensures r.result.Err? <==> Discover(rootError, rootBlocks).Err?
    ensures r.result.Ok? ==> |r.result.value| <= |Discover(rootError, rootBlocks).value|
    ensures forall n :: !EndsWithMd(n) ==> (n in r.posts <==> n in dir)
    ensures forall n :: n in dir && !EndsWithMd(n) ==> r.posts[n] == dir[n]
    ensures forall n :: n in r.posts && EndsWithMd(n) ==> r.result.Ok? && WrittenBy(r.result.value, n)
    ensures r.result.Ok? ==> forall k :: 0 <= k < |r.result.value| ==> r.result.value[k].fileName in r.posts
  {
    var cleared := ClearMarkdown(dir);
    match Discover(rootError, rootBlocks)
    case Err(e) => SyncRun(cleared, Err(e))
    case Ok(records) =>
      var state := SyncPages(map[], cleared, records, services);
      SyncRun(state.posts, Ok(state.results))
  }

  /** A run whose every page fails leaves exactly the directory without its `.md` files. */
  lemma SyncAllFail(dir: Directory, rootError: Option<string>, rootBlocks: seq<Block>, services: Services)
    requires Discover(rootError, rootBlocks).Ok?
    requires forall i :: 0 <= i < |Discover(rootError, rootBlocks).value| ==>
      services.markdown(Discover(rootError, rootBlocks).value[i].page.id).Err?
    ensures SyncNotion(dir, rootError, rootBlocks, services) == SyncRun(ClearMarkdown(dir), Ok([]))
  {
    SyncPagesAllFail(map[], ClearMarkdown(dir), Discover(rootError, rootBlocks).value, services);
  }

  /**
   * After a successful discovery, the run's results are exactly the
   * discovered pages that convert and are written, in discovery order,
   * with the slugs handed out from empty counters.
   */
  lemma SyncNotionResults(dir: Directory, rootError: Option<string>, rootBlocks: seq<Block>, services: Services)
    ensures var d := Discover(rootError, rootBlocks);
      d.Ok? ==>
        var slugs := SlugsFor(map[], d.value);
        SyncNotion(dir, rootError, rootBlocks, services).result
        == Ok(OutcomesAt(slugs, Images.SavedIndices(WriteFlags(d.value, Writes(services), slugs), 0)))
  {
    var d := Discover(rootError, rootBlocks);
    if d.Ok? {
      SyncPagesResults(map[], ClearMarkdown(dir), d.value, services);
    }
  }
}
