# Notion blog sync, modelled in Dafny

This project models the two pieces of logic in the blog repository:

- `scripts/notion-sync.js` mirrors a Notion page tree into Markdown posts with a YAML front matter.
- `src/plugins/remark-bookmark.js` is the remark plugin that turns a `[bookmark](url)` paragraph into an HTML bookmark card.

The script is modelled as one functional pipeline. Each module follows one part of it:

| module | what it models |
|---|---|
| `Wrappers` | `Option` and `Result` |
| `Decimal` | the decimal numeral in `base-<count>` and `level: <n>` |
| `JsString` | the JavaScript string operations the script uses, on `seq<char>`: `toLowerCase`, `indexOf`, `replace` with a string pattern (including the `$&`, `` $` ``, `$'` and `$$` substitutions), `trim`, and the global character-class replacements |
| `Slug` | `sanitizeSlug`, and `generateUniqueSlug` with its counter map `slugCache` threaded explicitly as a `map<string, nat>` |
| `Notion` | the page objects and blocks the Notion API returns, and `getPageTitle` |
| `TreeWalker` | `fetchChildPages` over a finite tree of blocks, in which every API call's failure is a value |
| `MarkdownPatterns` | hand-written matchers for the five regular expressions applied to Markdown, and the left-to-right global scan |
| `Images` | `processMarkdownContent`, and the local path `downloadImage` returns |
| `Description` | `extractDescription` |
| `FrontMatter` | the header `convertPageToMarkdown` builds and its text. It also has a reader for the double-quoted scalars of YAML 1.2 (section 7.3.1 of the YAML 1.2 specification), the inverse the serializer is checked against |
| `Sync` | `convertPageToMarkdown`, the `.md` clear step and the sequential page loop of `syncNotion`, with the posts directory as a map from file name to content |
| `RemarkBookmark` | the plugin, over a small mdast-like tree |

Everything the code cannot compute by itself is a function-valued parameter:

- the Notion Markdown converter;
- the image download outcome;
- whether a file write succeeds;
- the hostname of a URL.

Characters are Unicode scalar values.

## Model

| member | source | states |
|---|---|---|
| JsString.ToLowerCase | scripts/notion-sync.js:51 | no upper-case ASCII letter is left in the result |
| JsString.ToLowerCaseFixed | scripts/notion-sync.js:51 | a string whose every code point lower-cases to itself is left unchanged |
| JsString.IndexOf | scripts/notion-sync.js:139 | the result is the first position where the pattern occurs; none is reported only when it occurs nowhere |
| JsString.ReplaceFirstLiteral | scripts/notion-sync.js:139 | with a replacement free of `$`, `replace` swaps exactly the first occurrence of the pattern and leaves the text before and after it alone |
| JsString.Trim | scripts/notion-sync.js:155 | the result is a slice of the input; everything cut off is white space; the result neither starts nor ends with white space |
| JsString.TrimIdempotent | scripts/notion-sync.js:155 | trimming twice is trimming once |
| JsString.Filter | scripts/notion-sync.js:153 | a global class deletion keeps only code points of the kept class; an input made only of kept code points comes back unchanged |
| JsString.FilterAppend | scripts/notion-sync.js:153 | the deletion distributes over concatenation, so exactly the rejected code points are removed |
| JsString.CollapseRuns | scripts/notion-sync.js:154 | every run of the class becomes the single replacement character; no two class members end up adjacent; input without the class is unchanged |
| JsString.RemoveHyphens | scripts/notion-sync.js:250 | the result holds no `-`; an id without hyphens is unchanged |
| JsString.EscapeQuotes | scripts/notion-sync.js:276 | every `"` of the result is preceded by a backslash; a string without `"` is unchanged |
| JsString.EscapeQuotesChar | scripts/notion-sync.js:276 | a single `"` becomes `\"` and every other single character is kept as is |
| JsString.EscapeQuotesAppend | scripts/notion-sync.js:276 | the escaping distributes over concatenation, so with `EscapeQuotesChar` it fixes the output character by character |
| Decimal.ToNatFromNat | scripts/notion-sync.js:69 | the numeral printed for a count reads back as that count |
| Decimal.FromNatInjective | scripts/notion-sync.js:69 | distinct counts print as distinct numerals |
| Decimal.DigitRunOfNumeral | scripts/notion-sync.js:330 | a printed numeral followed by a non-digit is read back as exactly that many digits |
| Slug.SanitizeSlug | scripts/notion-sync.js:49-57 | the result contains only lower-case ASCII letters, digits, `_`, `-` and Hangul syllables, never contains `--`, and neither starts nor ends with `-` |
| Slug.SanitizeClean | scripts/notion-sync.js:49-57 | every string of that clean shape is a fixed point of `sanitizeSlug` |
| Slug.SanitizeIdempotent | scripts/notion-sync.js:49-57 | `sanitizeSlug` is idempotent |
| Slug.KelvinSignBecomesK | scripts/notion-sync.js:51-53 | KELVIN SIGN is lower-cased to ASCII `k` before the class filter, so it survives as `k` |
| Slug.Claim | scripts/notion-sync.js:62-69 | the first request for a base returns the base and records 1; a later one returns `base-<count>` and increments the count; no other base's counter moves |
| Slug.GenerateUniqueSlug | scripts/notion-sync.js:59-70 | the same, for the sanitised title |
| Slug.ClaimAllCounts | scripts/notion-sync.js:59-70 | after a sequence of requests, each base's counter has grown by the number of requests for it |
| Slug.ClaimAllSameBase | scripts/notion-sync.js:59-70 | N requests for one fresh base yield `base, base-1, ..., base-(N-1)`, pairwise distinct, and leave its counter at N |
| Slug.GenerateAllSameBase | scripts/notion-sync.js:59-70 | N titles with one fresh base yield `base, base-1, ..., base-(N-1)`; that counter ends at N and every other counter is unchanged |
| Slug.CrossBaseCollision | scripts/notion-sync.js:59-70 | uniqueness holds per base only: titles `b`, `b`, `b-1` receive the slugs `b`, `b-1`, `b-1` |
| Notion.TitleProperty | scripts/notion-sync.js:166 | the property used is the first alias present among `title`, `Title`, `Name`; there is none exactly when no alias is present |
| Notion.GetPageTitle | scripts/notion-sync.js:165-177 | the title is `Untitled` or the first segment of a usable title property; it comes from the first alias present; with no alias present it is `Untitled` |
| Notion.NoFallbackPastPresentAlias | scripts/notion-sync.js:166-176 | an unusable `title` property yields `Untitled` even when a usable `Name` exists |
| TreeWalker.Listed | scripts/notion-sync.js:182-185 | a listing yields at most its first 100 blocks, in order |
| TreeWalker.WalkBlocksOutcome | scripts/notion-sync.js:189-223 | the walk succeeds exactly when nothing it visits fails, and then it yields one record per visible `child_page` block |
| TreeWalker.FetchChildPagesOutcome | scripts/notion-sync.js:180-224 | a node's walk fails exactly when its listing or anything below it fails; otherwise it yields one record per visible page below it |
| TreeWalker.BeyondPageSizeIgnored | scripts/notion-sync.js:184 | blocks past the first 100 of a listing change nothing |
| TreeWalker.WalkBlocksShape | scripts/notion-sync.js:189-216 | every record has `hierarchy` = parent's hierarchy plus its own title, `level + 1` entries, empty `tags`, and no parent exactly at level 0; the records lie in pre-order under their parents (with `TreeWalker.WalkBlocksLevels`, the parent is the tree parent) |
| TreeWalker.DiscoverShape | scripts/notion-sync.js:180-224 | the same for the walk from the root, starting at level 0 |
| TreeWalker.WalkBlocksPages | scripts/notion-sync.js:189-223 | a successful walk's records carry exactly the retrieved pages of the visible `child_page` blocks, in sibling order with each page's descendants right after it (the reference `VisiblePages`) |
| TreeWalker.DiscoverPages | scripts/notion-sync.js:180-224 | the same for the walk from the root |
| TreeWalker.WalkBlocksLevels | scripts/notion-sync.js:189-223 | a successful walk's record levels are exactly the depths of the visible pages in the tree, in the same order (the reference `VisibleDepths`): a page listed under a page at level `n` is at level `n + 1` |
| TreeWalker.DiscoverLevels | scripts/notion-sync.js:180-224 | the same for the walk from the root, whose top pages are at level 0 |
| MarkdownPatterns.MatchAt | scripts/notion-sync.js:121 | a match found at a position starts there and ends after it, within the text |
| MarkdownPatterns.HttpImageSound | scripts/notion-sync.js:121 | conversely, a match of the image expression spans exactly `![alt](url)` built from its two groups, the alt text has no `]`, and the URL is http(s) with no `)` |
| MarkdownPatterns.Matches | scripts/notion-sync.js:125 | the global scan reports matches in increasing, non-overlapping order, each a match at its own start |
| MarkdownPatterns.MatchesComplete | scripts/notion-sync.js:125 | no position left uncovered by the scan's matches is the start of a match |
| MarkdownPatterns.HttpUrlMatches | scripts/notion-sync.js:121 | `![alt](url)` with an http(s) URL and no `]` in the alt text is matched whole, capturing the alt text and the URL |
| Images.FileExtension | scripts/notion-sync.js:74 | the extension is the URL path's own when it has one, and never empty |
| Images.Collect | scripts/notion-sync.js:125-135 | the k-th match is always requested as `image-k`, whether earlier downloads failed or not; there are never more rewrites than matches |
| Images.CollectAllFailed | scripts/notion-sync.js:129-134 | when every download fails there is nothing to rewrite |
| Images.CollectAllSaved | scripts/notion-sync.js:129-131 | when every download succeeds, the k-th rewrite belongs to the k-th match and its local path |
| Images.SavedIndicesIncreasing | scripts/notion-sync.js:125-134 | the saved positions are listed in increasing order, the order the `exec` loop visits the matches |
| Images.SavedIndicesFilter | scripts/notion-sync.js:129-134 | the saved positions are exactly the matches whose download is saved |
| Images.CollectFrom | scripts/notion-sync.js:125-135 | for any mix of outcomes, the rewrites collected from a match on are those of the saved matches after it, in order, each with its own image number |
| Images.CollectRewrites | scripts/notion-sync.js:125-135 | so the rewrites collected are exactly the rewrites of the saved matches, in match order |
| Images.ProcessMarkdownContent | scripts/notion-sync.js:109-143 | the downloads requested are exactly the matches' URLs, in order, named `image-1`, `image-2`, ... |
| Images.ProcessRewrites | scripts/notion-sync.js:109-143 | for any mix of outcomes, the result is the Markdown with the rewrite of each saved match, in match order, replacing the first occurrence of that match's text |
| Images.ProcessAllFailed | scripts/notion-sync.js:109-143 | with no image or with every download failing, the Markdown comes back unchanged |
| Images.ProcessHttpOnly | scripts/notion-sync.js:125-135 | with a downloader that refuses every URL whose scheme is not `https:`, as `https.get` does, Markdown whose image URLs are all `http:` comes back unchanged |
| Images.SingleImageRewritten | scripts/notion-sync.js:109-143 | a saved image's target becomes `/notion-blog/images/notion/<pageId>/image-1<ext>` and nothing else changes |
| Images.TwoImageMatches | scripts/notion-sync.js:121-125 | the `exec` loop over two images written back to back finds exactly those two, in order, with their alt texts and URLs |
| Images.ProcessTwoImages | scripts/notion-sync.js:125-140 | two adjacent images are matched in order and rewritten by successive first-occurrence replacements |
| Images.DuplicateImageRewritesFirstCopy | scripts/notion-sync.js:138-140 | when the same image appears twice and only the second download succeeds, the first copy is rewritten with the second image's path |
| Images.SecondDownloadFails | scripts/notion-sync.js:129-134 | a failed second download leaves the second image as it was, while the first is rewritten |
| Images.FirstDownloadFails | scripts/notion-sync.js:127-134 | a failed first download still uses up `image-1`, so the second image is saved as `image-2` |
| Description.Flatten | scripts/notion-sync.js:153-155 | after the emphasis, newline and trim passes the text holds no `*`, `_`, `~` or line break and has no surrounding white space |
| Description.PlainText | scripts/notion-sync.js:148-155 | the same for the whole chain of strip passes |
| Description.Truncate | scripts/notion-sync.js:161 | the cut text is the prefix of the plain text up to the limit with only its trailing white space removed, followed by `...` |
| Description.ExtractDescription | scripts/notion-sync.js:146-162 | a plain text that fits is returned as is; otherwise the result is the first `maxLength` characters with trailing white space trimmed, plus `...` |
| Description.DescribesUnique | scripts/notion-sync.js:161 | that description of a long text is pinned down: two strings that both meet it are equal |
| Description.ExtractDescriptionUnique | scripts/notion-sync.js:146-162 | so any string that meets it is the description `extractDescription` returns |
| Description.ProseIsPlain | scripts/notion-sync.js:146-162 | text without Markdown syntax, line breaks or surrounding white space is its own plain text, and its own description when it fits |
| Description.LinkKeepsText | scripts/notion-sync.js:151 | the link pass keeps a link's text and drops its target |
| FrontMatter.HeaderOf | scripts/notion-sync.js:272-299 | `category` is present exactly when the parent title is non-empty; `tags` is the hierarchy without its last entry when it has more than one entry, and absent otherwise; `parent` is the hyphen-free parent id when that is non-empty |
| FrontMatter.EscapeScalar | scripts/notion-sync.js:276 | the escaped text is never shorter; text without `"` or `\` is unchanged |
| FrontMatter.ReadEscaped | scripts/notion-sync.js:303 | an escaped field followed by its closing quote reads back as the original field and the text after it |
| FrontMatter.ReadOptionalOf | scripts/notion-sync.js:308-328 | an optional line reads back as present with its value, or absent when it was not emitted |
| FrontMatter.ReadItemsOf | scripts/notion-sync.js:312-324 | the `  - "..."` item lines of a list read back as the list |
| FrontMatter.ReadClosingOf | scripts/notion-sync.js:330-334 | `level: <n>` and the closing `---` followed by a blank line read back as the level and the body |
| FrontMatter.DocumentRoundTrip | scripts/notion-sync.js:302-334 | a well-formed header and a body, written out, read back as that header and that body, so every field is in its order and the body follows the closing marker |
| FrontMatter.AsWrittenAgrees | scripts/notion-sync.js:276-322 | while no field contains a backslash, escaping only `"` gives the same text as full escaping |
| FrontMatter.AsWrittenRoundTrip | scripts/notion-sync.js:302-334 | so for such headers the script's own text also reads back as the header and body |
| FrontMatter.AsWrittenMisreadsBackslash | scripts/notion-sync.js:276-303 | a title that is a backslash followed by `n` reads back as a line break |
| FrontMatter.HeaderOfWellFormed | scripts/notion-sync.js:249-300 | the header built from a page is well formed when every text field is printable on one line (no LF, CR or other character YAML 1.2 forbids raw) and the date and ids also contain no quote or backslash |
| Sync.ClearMarkdown | scripts/notion-sync.js:371-377 | no `.md` name is left; every other file keeps its name and content |
| Sync.ClearIdempotent | scripts/notion-sync.js:371-377 | clearing twice is clearing once |
| Sync.FileNameOf | scripts/notion-sync.js:337 | the file name is the slug followed by `.md`, so it survives only until the next clear |
| Sync.ConvertPage | scripts/notion-sync.js:248-348 | the slug is claimed whether the page fails or not; a post is produced exactly when the Markdown conversion and the write succeed; the post carries the claimed slug, and its content is the front matter of the page followed by the page's Markdown after image processing, so `Sync.PostReadsBack` and `Images.ProcessRewrites` apply to it |
| Sync.PostReadsBack | scripts/notion-sync.js:302-339 | the file written for a page, with only `"` escaped, reads back as the page's header and its processed Markdown when no header field holds a backslash |
| Sync.TitlesOf | scripts/notion-sync.js:251 | the titles of the records, in order |
| Sync.RunPages | scripts/notion-sync.js:384-390 | at most one result per page (exactly which ones: `Sync.RunPagesKept`); each result's file is `<slug>.md` and is present; only `.md` names change, and every new one was written by a result |
| Sync.RunPagesKept | scripts/notion-sync.js:384-390 | the results are exactly the pages whose conversion writes a post, in page order, each with the slug claimed for it and its `<slug>.md` file |
| Sync.KeptFilter | scripts/notion-sync.js:384-390 | keeping the written pages is picking, in increasing order, the positions whose flag is set (`Images.SavedIndices`) |
| Sync.SyncPagesResults | scripts/notion-sync.js:384-390 | the loop's results are exactly the pages whose Markdown converts and whose file can be written, in order, with the slugs `generateUniqueSlug` hands out for all pages, failed ones included |
| Sync.SyncPagesSlugs | scripts/notion-sync.js:253 | the counters after the loop are those of one `generateUniqueSlug` call per page, failed pages included |
| Sync.SlugsIgnoreFailures | scripts/notion-sync.js:253-258 | which pages fail does not change the counters |
| Sync.SyncPagesAllSucceed | scripts/notion-sync.js:384-390 | when every page converts, there is one result per page, carrying the slugs `generateUniqueSlug` hands out in order |
| Sync.SyncPagesAllFail | scripts/notion-sync.js:344-347 | when every conversion fails, nothing is written and there are no results |
| Sync.SyncNotion | scripts/notion-sync.js:363-407 | the run fails exactly when discovery fails, and has no more results than pages (exactly which ones: `Sync.SyncNotionResults`); other files are untouched; any `.md` file present afterwards was written by a result |
| Sync.SyncNotionResults | scripts/notion-sync.js:363-407 | when discovery succeeds, the results are exactly the discovered pages that convert and can be written, in discovery order, with their `generateUniqueSlug` slugs and `.md` file names |
| Sync.SyncAllFail | scripts/notion-sync.js:371-390 | when every page fails, the run leaves the directory without its `.md` files and no results |
| RemarkBookmark.RewriteNode | src/plugins/remark-bookmark.js:9-37 | a bookmark paragraph becomes its card; any other node keeps its kind and its number of children, each rewritten in turn |
| RemarkBookmark.RemarkBookmark | src/plugins/remark-bookmark.js:9-37 | the root keeps its length; each bookmark paragraph is replaced in place by its card; any other node keeps its shape; a node is HTML afterwards exactly when it was a bookmark or was HTML already |
| RemarkBookmark.CardsAdded | src/plugins/remark-bookmark.js:9-37 | the rewrite adds exactly one card per bookmark paragraph, at any depth |
| RemarkBookmark.Idempotent | src/plugins/remark-bookmark.js:9-37 | rewriting twice is rewriting once |
| RemarkBookmark.RemarkBookmarkKinded | src/plugins/remark-bookmark.js:9-37 | a tree whose catch-all nodes are of no type the plugin inspects keeps that property, so a catch-all node is never a paragraph, link or text in disguise |
| RemarkBookmark.NoBookmarksKept | src/plugins/remark-bookmark.js:11-17 | a tree without bookmark paragraphs is unchanged |
| RemarkBookmark.NestedBookmarkRewritten | src/plugins/remark-bookmark.js:9 | a bookmark paragraph two containers deep is rewritten too |
| RemarkBookmark.OtherLinkTextKept | src/plugins/remark-bookmark.js:16 | a link whose text is not exactly `bookmark` is left alone |
| RemarkBookmark.DomainDropsFirstWww | src/plugins/remark-bookmark.js:23-29 | the domain is the hostname with its first `www.` removed |
| RemarkBookmark.DomainDropsInnerWww | src/plugins/remark-bookmark.js:26 | that `www.` need not be a prefix: `a.www.b` becomes `a.b` |
| RemarkBookmark.DomainWithoutWww | src/plugins/remark-bookmark.js:26 | a hostname without `www.` is the domain as is |
| RemarkBookmark.DomainOfUnparsed | src/plugins/remark-bookmark.js:23-29 | a URL that does not parse is its own domain |
| RemarkBookmark.CardHref | src/plugins/remark-bookmark.js:36 | the card's `href` attribute reads back as the URL exactly when the URL contains no `"`, since the URL is embedded without escaping |

## Left out

- Strings are sequences of Unicode scalar values. JavaScript measures strings in UTF-16 code units, so `maxLength` in `extractDescription` counts differently for characters outside the Basic Multilingual Plane.
- `toLowerCase` uses a partial table: ASCII, Latin-1, KELVIN SIGN and U+0130. Other code points are left unchanged. The slug properties hold whatever the mapping of non-ASCII letters is, as long as it produces no upper-case ASCII.
- JavaScript `\s` is modelled by `JsString.IsSpace`, the WhiteSpace and LineTerminator code points listed there.
- The Notion client, `pages.retrieve`, `blocks.children.list` and the `notion-to-md` conversion are remote or foreign. They appear only as the block tree, each call's failure, and a Markdown oracle per page.
- The HTTPS request, redirect following and the write stream of `downloadImage` are network and filesystem I/O. Only the outcome oracle and the returned path shape are modelled.
- `path.extname`, `new URL(...)` and `unist-util-visit` are foreign code. The extension and the hostname are oracles, and the tree traversal is written directly.
- `mkdir`, `readdir`, `unlink` and their errors, the image directory, the `git status` check in `hasChanges`, `.env` loading, the process exit and all console logging (including the bookmark count) are I/O.
- `fetchPages` only logs and passes the walk's result on, so it is merged into `TreeWalker.Discover`.
- The site is served under `/blog`, while image paths are written under `/notion-blog`. This is build configuration and is not modelled.
- `FrontMatter.ParseDocument` reads only what the serializer writes: double-quoted scalars with the single-character escapes of section 5.7 of the YAML 1.2 specification. It does not read numeric escapes, line folding or other YAML forms. A raw LF or CR (the line breaks of section 5.4) or any character outside the printable set of section 5.1 ends the read with no value.
- FrontMatter.HeaderOfWellFormed: a field holding a line break or a control character is excluded. The page's code writes such characters raw inside the quotes, where a YAML reader folds the line break or rejects the character, so the field does not read back as written.
- Images.ProcessTwoImages: the final text is given in general as first-occurrence replacements (`Images.ProcessRewrites`); where each replacement lands in the final text is worked out only for up to two images.
- Images.ProcessMarkdownContent: the download outcome is a free parameter, so a URL `https.get` refuses (any `http:` URL, including the target of a redirect) is not forced to fail. `https.get` throws on such a URL, the catch drops it, and so an `http:` image is never rewritten. `Images.ProcessHttpOnly` states this under a downloader that refuses them.
- MarkdownPatterns.MatchAt: the converse, that a reported match really is text of the expression's shape, is proved for the http(s) image expression only (`MarkdownPatterns.HttpImageSound`), the one whose groups the rest of the model uses.
- Sync.PostReadsBack: a header field holding a backslash is excluded, because the script's file misreads it (see "## Findings").
- Slug.GenerateUniqueSlug: slugs are unique per base only, not across different bases. `Slug.CrossBaseCollision` shows a collision, where the later file overwrites the earlier one.
- RemarkBookmark.RemarkBookmark: the rewrite runs on the children of the root node. A paragraph used as the root itself, which the plugin cannot replace because it has no parent, is not modelled.

## Findings

| source | as written | input that shows it | evidently intended | confidence | as-written member | corrected member |
|---|---|---|---|---|---|---|
| scripts/notion-sync.js:276-322 | the quoted front-matter fields escape only `"`; a backslash is written as is, so a YAML reader takes it as the start of an escape | a page titled with the two characters `\` `n` gets `title: "\n"`, which reads back as a line break (a title ending in `\` swallows its closing quote) | escape `\` as well as `"`, so every quoted field reads back as written | not executed | FrontMatter.AsWrittenMisreadsBackslash | FrontMatter.DocumentRoundTrip |

`Sync` writes the script's text (`FrontMatter.DocumentAsWritten`). `FrontMatter.AsWrittenAgrees` shows it matches the corrected text on every header without a backslash.
