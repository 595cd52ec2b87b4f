# Documentation link pipeline of majorcontext.com, in Dafny

This project models the part of the majorcontext.com site that moves product
documentation from a GitHub repository into the site and keeps its links
working:

- **Slug and title helpers** (`Strings`): `slugify` drops one leading
  `digits-` prefix and one trailing `.md`. `titleCase` splits on `-` and `_`
  and upper-cases the first letter of each word.
- **Render-time link rewriter** (`RemarkRewriteLinks`): the per-node step of
  the remark plugin. A relative `.md` link becomes `/moat/<category>/<slug>`,
  by one of three rules: parent traversal, category-qualified or
  same-category. `inferCategoryFromPath` supplies the category for the third.
- **Batch sync normaliser**, split in three modules:
  - `GhApi`: the error cascade of `ghApiCall`.
  - `FetchRewrite`: the three global regex replacements of
    `rewriteMarkdownLinks`, each written out as a matcher over `seq<char>`.
  - `FetchScan`: the replacements are local. A match depends only on the
    text it covers, so a document splits into pieces that are rewritten
    apart wherever no match runs across the seam.
  - `FetchLinks`: what the three passes do to each kind of link anywhere in
    a document.
  - `FetchSync`: the binary check, frontmatter synthesis, the depth-first
    mirror of `syncDirectory` and the failure policy of `fetchProductDocs`.
    The file system is a class `ContentStore` holding a map from path to
    content. Its constructor only sets up the model with an empty store;
    nothing in the source creates the file system.
- **Link validator**:
  - `SitePaths`: `getPathFromFile`.
  - `ValidateLinks`: `getMarkdownFiles` as a class `MarkdownCollector` that
    pushes while it recurses; `findInternalLinks` with the stateful
    `lastIndex` scan; the valid-set and broken-link loops of `main`.
- **`Agreement`**: relates the two rewriters, which disagree in places, and
  the two title computations.

Shared modules:

- `Text`: character classes, `Span` (the end of the longest run of a class),
  `split`, `trimStart`, `substring(0, n)` and ASCII `toUpperCase`.
- `Wrappers`: `Option`, `Result` and `Outcome`.

Each regular expression is written out as a matcher over `seq<char>`. `\w` is ASCII letters, digits and `_`; `\d`
is ASCII digits; `.` is any character except a line terminator. Input and
output are parameters:

- What `gh api` printed or threw is an `Exec` value.
- What a download returned is a `Download` value.
- The remote tree is a `Listing` of `Item`s.
- The local tree the validator reads is a sequence of `Entry` values.
- File contents are a sequence given in parallel with the file list.

Where the code and its stated intent differ, the model follows the code:

- A fetched `03-my_topic.md` without frontmatter gets the title `My_topic`,
  not `My Topic`. The title splits on `-` only (scripts/fetch-docs.ts:94).
  See `Agreement.UnderscoreTitlesDisagree`.
- The batch rewriter and the render-time rewriter are not equivalent:
  - A bare `](02-installation.md)` is rewritten by the plugin but left alone
    by the batch rewriter, whose same-category pattern needs a `/` after the
    optional `.`. The comment at scripts/fetch-docs.ts:122 claims otherwise.
    See `Agreement.BareLinksDisagree` and `FetchLinks.BareLinkUnchanged`.
  - The two infer the category differently. See
    `Agreement.CategoriesDisagree`.
  - They agree on parent-traversal links to numbered pages. See
    `Agreement.ParentLinksAgree`.
- The category pattern `[^\/\.]+` (scripts/fetch-docs.ts:119) also runs
  over `]`, `(`, `#`, spaces and line breaks. Take a `](` whose target has
  no `/` or `.`, such as `[see](#intro) and [b](guide/02-x.md)`. One match
  runs from that `](` into the next category link. The anchor link's target
  and the text between are swallowed into the category of a single site
  link, and the category link does not get its own target. See
  `FetchLinks.CategoryLinkSwallowed`.
- The "cached content" `fetchProductDocs` falls back on can only be files
  written earlier in the same run. The output directory is removed and
  recreated before the sync starts (scripts/fetch-docs.ts:159-161). See
  `FetchSync.FetchPolicy`.

Because of that swallowing, the link lemmas carry a hypothesis on the text in front of the
link, `FetchScan.ClosedBefore`. Every `](../` in it has a later `/` within
it. After the first pass, every `](` in it has a later `/` or `.` within
it. Under that hypothesis, no match that starts in front can run into the
link, and the three passes rewrite the text in front, the link and the text
behind each on its own. Text without `]` satisfies the hypothesis
(`FetchLinks.NoBracketClosed`).

## Model

| member | source | states |
|---|---|---|
| Strings.StripNumericPrefix | src/utils/strings.ts:20 | removes exactly one leading `digits-` when present (any such prefix gives the same result); anything else is returned unchanged |
| Strings.StripMdSuffix | src/utils/strings.ts:20 | removes one trailing `.md` when present, so that the result followed by `.md` is the input; otherwise the input is unchanged |
| Strings.SlugifyPrefixed | src/utils/strings.ts:13-21 | `digits-name.md` slugifies to `name` (for example `01-introduction.md` to `introduction`, `01-02-x.md` to `02-x`) |
| Strings.SlugifyUnprefixed | src/utils/strings.ts:13-21 | `name.md` slugifies to `name` when `name` does not start with a digit |
| Strings.SlugifyIsInfix | src/utils/strings.ts:19-21 | the slug is a contiguous piece of the file name; a name with neither prefix nor suffix is returned unchanged |
| Strings.NumericPrefixBeforeMd | src/utils/strings.ts:20 | a numeric prefix is still a prefix once `.md` is removed, and it ends before the suffix |
| Strings.StripsCommute | src/utils/strings.ts:20 | removing the prefix then `.md` gives the same result as the reverse order, which `rewriteMarkdownUrl` uses at line 50 |
| Strings.CapitaliseWordsCharwise | src/utils/strings.ts:7-10 | splitting, capitalising each word's first letter and joining with one space keeps the length; each position is the upper-cased letter of a word start, a space for a separator, or the original character |
| Strings.TitleCase | src/utils/strings.ts:6-11 | the result has the input's length, each character is given by its position, and no `-` or `_` remains |
| Strings.TitleCaseTwoWords | src/utils/strings.ts:1-11 | `a-b` and `a_b` both give `Capitalise(a) Capitalise(b)`, as in `getting-started`/`getting_started` to `Getting Started` |
| Strings.TitleCaseKeepsEmptyWords | src/utils/strings.ts:8-10 | empty words survive: `a--b` gives `A  B` and `""` gives `""` |
| Strings.SplitWithEmptyWord | src/utils/strings.ts:8 | `split(/[-_]/)` keeps the empty word between two separators |
| Strings.CapitaliseWithEmptyWord | src/utils/strings.ts:9 | capitalising leaves an empty word empty |
| RemarkRewriteLinks.InferCategoryFromPath | src/lib/remark-rewrite-links.ts:54-69 | the category is never empty and never contains `/` or `\` |
| RemarkRewriteLinks.InferCategoryPreference | src/lib/remark-rewrite-links.ts:59-68 | the segment after the leftmost `moat` + separator that is closed by a separator wins; failing that the first segment before a separator; failing that `getting-started` |
| RemarkRewriteLinks.MoatDirectoryCategory | src/lib/remark-rewrite-links.ts:55-61 | in `…moat/<cat>/…` the category is `cat` |
| RemarkRewriteLinks.RewriteMarkdownUrl | src/lib/remark-rewrite-links.ts:24-52 | every rewritten url is `/moat/<category>/<slug>` with a category free of `/` |
| RemarkRewriteLinks.SiteUrlFromParts | src/lib/remark-rewrite-links.ts:33-35 | the url built from the split parts starts with `/moat/`, then a category free of `/`, then `/` |
| RemarkRewriteLinks.ParentRuleUrl | src/lib/remark-rewrite-links.ts:29-37 | the parent-traversal rule yields a `/moat/<category>/<slug>` url |
| RemarkRewriteLinks.CategoryRuleUrl | src/lib/remark-rewrite-links.ts:39-45 | the category-qualified rule yields a `/moat/<category>/<slug>` url |
| RemarkRewriteLinks.SameCategoryUrl | src/lib/remark-rewrite-links.ts:47-51 | the same-category rule yields a `/moat/<category>/<slug>` url |
| RemarkRewriteLinks.RewrittenUrl | src/lib/remark-rewrite-links.ts:12-19 | the url changes if and only if it does not start with `http` or `/` and ends with `.md`; a changed url is a site url |
| RemarkRewriteLinks.RewrittenUrlIdempotent | src/lib/remark-rewrite-links.ts:15-18 | running the plugin step twice gives the same url as once |
| RemarkRewriteLinks.LinkNode.constructor | src/lib/remark-rewrite-links.ts:11-12 | a link node holds the given url |
| RemarkRewriteLinks.RewriteLinkNode | src/lib/remark-rewrite-links.ts:11-20 | the node's url is replaced in place by the guarded rewrite of its old url, using `file.history[0] \|\| file.path \|\| ''` |
| RemarkRewriteLinks.ParentTraversal | src/lib/remark-rewrite-links.ts:29-36 | `../cat/…/last` maps to `/moat/cat/slug(last)` whatever the containing file; middle segments are dropped |
| RemarkRewriteLinks.ParentRuleGives | src/lib/remark-rewrite-links.ts:31-35 | the parent rule takes its category from the first part and its slug from the last part after the one removed `../` |
| RemarkRewriteLinks.CategoryQualified | src/lib/remark-rewrite-links.ts:39-45 | `cat/…/last` maps to `/moat/cat/slug(last)` whatever the containing file |
| RemarkRewriteLinks.CategoryRuleGives | src/lib/remark-rewrite-links.ts:40-44 | the category rule takes the first and last parts of the normalised url |
| RemarkRewriteLinks.DotSlashCategoryQualified | src/lib/remark-rewrite-links.ts:26-45 | `./cat/…/last` loses its `./` and then maps like `cat/…/last` |
| RemarkRewriteLinks.OneSegmentParent | src/lib/remark-rewrite-links.ts:31-44 | a one-segment `../x` misses the parent rule and becomes `/moat/../slug(x)` |
| RemarkRewriteLinks.SameCategory | src/lib/remark-rewrite-links.ts:47-51 | a link with no `/` maps to `/moat/<inferred category>/slug` |
| RemarkRewriteLinks.DotSlashSameCategory | src/lib/remark-rewrite-links.ts:26-51 | `./name` maps like `name` |
| RemarkRewriteLinks.SameRuleGives | src/lib/remark-rewrite-links.ts:48-51 | the same-category rule uses the inferred category and the slug of the normalised url |
| RemarkRewriteLinks.SameCategoryUnderMoat | src/lib/remark-rewrite-links.ts:47-51 | inside `…moat/<cat>/…`, both `name` and `./name` map to `/moat/cat/slug(name)` |
| GhApi.Describe | scripts/fetch-docs.ts:58 | `${error}` of an Error is `Error: <message>` (or `Error` when the message is empty); of anything else, its text |
| GhApi.ClassifyMessage | scripts/fetch-docs.ts:31-56 | the kind found is mentioned by the message and no kind earlier in the cascade is; no kind means none is mentioned |
| GhApi.ParseFailureMessage | scripts/fetch-docs.ts:28 | the parse error is the fixed prefix followed by exactly the first 200 characters of the output, or all of it when shorter |
| GhApi.ErrorMessage | scripts/fetch-docs.ts:30-59 | a classified Error gets its kind's message; anything else the generic message naming the endpoint |
| GhApi.GhApiCall | scripts/fetch-docs.ts:13-60 | succeeds exactly when the output parsed, returning it; otherwise its error is the cascade's message for what was thrown |
| GhApi.ErrorMessageEndpoint | scripts/fetch-docs.ts:51-58 | only the not-found and generic messages depend on the endpoint, and they contain it |
| GhApi.ParseFailureClassified | scripts/fetch-docs.ts:21-30 | a parse failure whose output mentions a kind is classified as that kind or an earlier one, because it is rethrown through the cascade |
| GhApi.UnparsableClassified | scripts/fetch-docs.ts:27-56 | an unparsable output fails with the message of the kind its parse error is classified as |
| FetchRewrite.SlugCaptureStripsPrefix | scripts/fetch-docs.ts:115-123 | the slug group of `(\d+-)?([\w-]+)` is the word without its numeric prefix, unless nothing would remain |
| FetchRewrite.TailAt | scripts/fetch-docs.ts:115-123 | a `(\d+-)?([\w-]+)\.md\)` tail ends after a `.md)` and captures a non-empty word |
| FetchRewrite.ParentMatchAt | scripts/fetch-docs.ts:115 | a parent match starts with `](`, ends after `.md)` and captures a category without `/` |
| FetchRewrite.CategoryMatchAt | scripts/fetch-docs.ts:119 | a category match starts with `](`, ends after `.md)` and captures a category without `/` or `.` |
| FetchRewrite.SameCategoryMatchAt | scripts/fetch-docs.ts:123 | a same-category match starts with `](`, ends after `.md)` and captures no category |
| FetchRewrite.MatchAt | scripts/fetch-docs.ts:113-125 | each pattern's match is well formed in the above sense |
| FetchRewrite.CurrentCategory | scripts/fetch-docs.ts:109-110 | empty exactly when no `docs/content/<dir>/` occurs; otherwise the segment of the leftmost occurrence |
| FetchRewrite.RewriteWithoutMdLinks | scripts/fetch-docs.ts:107-126 | content with no `.md)` comes back unchanged (http links, `.md#anchor`) |
| FetchRewrite.NoBracketNoMatch | scripts/fetch-docs.ts:115-123 | no pattern matches where there is no `]` |
| FetchRewrite.ReplaceSkip | scripts/fetch-docs.ts:113-125 | a global replace copies every position where nothing matches |
| FetchRewrite.ReplaceNowhere | scripts/fetch-docs.ts:113-125 | a global replace with no match is the identity |
| FetchScan.MatchExtends | scripts/fetch-docs.ts:115-123 | a match found in a text is found, unchanged, in any continuation of it |
| FetchScan.MatchRestricts | scripts/fetch-docs.ts:115-123 | a match that ends within a prefix of the text is found in that prefix alone |
| FetchScan.MatchShifts | scripts/fetch-docs.ts:115-123 | text put in front moves every match by its length and changes nothing else |
| FetchScan.ReplaceShifts | scripts/fetch-docs.ts:113-125 | the scan of `x + y` from inside `y` is the scan of `y` alone |
| FetchScan.ReplaceSplit | scripts/fetch-docs.ts:113-125 | where no match runs across the end of `x`, a global replace of `x + y` is the replace of `x` followed by that of `y` |
| FetchScan.ReplaceHeadMatch | scripts/fetch-docs.ts:113-125 | a match covering exactly the head `t` is substituted and the rest is replaced as if it stood alone |
| FetchScan.ReplaceHeadCopy | scripts/fetch-docs.ts:113-125 | a head `t` where nothing matches is copied and the rest is replaced as if it stood alone |
| FetchScan.AcrossBracket | scripts/fetch-docs.ts:115-123 | before a `]`, a match of the third pattern, or of the first two over closed text, ends before that `]` |
| FetchScan.ReplaceKeepsBracket | scripts/fetch-docs.ts:113-125 | a replacement leaves a leading `]` in front |
| FetchScan.RewriteSplits | scripts/fetch-docs.ts:107-126 | at a `]` preceded by closed text, the document is rewritten as the two sides rewritten apart |
| FetchLinks.ParentHeadMatch | scripts/fetch-docs.ts:115 | `](../cat/w.md)` is one match of the parent pattern, whatever follows, capturing `cat` and the slug of `w` |
| FetchLinks.CategoryHeadMatch | scripts/fetch-docs.ts:119 | `](cat/w.md)` is one match of the category pattern, whatever follows |
| FetchLinks.SameCategoryHeadMatch | scripts/fetch-docs.ts:123 | `](./w.md)` and `](/w.md)` are one match of the same-category pattern, whatever follows, with no category |
| FetchLinks.CategoryNotParent | scripts/fetch-docs.ts:115 | the parent pattern does not match a `](cat/` link |
| FetchLinks.SameCategoryNotEarlier | scripts/fetch-docs.ts:115-119 | the first two patterns do not match a `](./` or `](/` link |
| FetchLinks.BareNoMatch | scripts/fetch-docs.ts:115-123 | none of the patterns matches a bare `](word.md)` |
| FetchLinks.ReplacementInert | scripts/fetch-docs.ts:119-123 | the later patterns do not match at a `](/<productId>/` replacement |
| FetchLinks.PassCopies | scripts/fetch-docs.ts:113-125 | a pass copies a piece that starts with the only `]` in it and does not match there, and replaces both sides apart |
| FetchLinks.PassReplaces | scripts/fetch-docs.ts:113-125 | a pass substitutes a piece that is one whole match and replaces both sides apart |
| FetchLinks.ReplacementStays | scripts/fetch-docs.ts:116-124 | a link rewritten by the first pass is copied by the two later passes, which replace both sides apart |
| FetchLinks.ParentLinkRewritten | scripts/fetch-docs.ts:107-126 | for a `[\w-]+` productId, in any document whose text in front is closed, `](../cat/NN-slug.md)` becomes `](/<productId>/cat/slug)` and the text on each side is rewritten as it would be alone |
| FetchLinks.CategoryLinkRewritten | scripts/fetch-docs.ts:107-126 | likewise, for a `[\w-]+` productId, `](cat/NN-slug.md)` with a category free of `.` becomes `](/<productId>/cat/slug)` |
| FetchLinks.SameCategoryLinkRewritten | scripts/fetch-docs.ts:107-126 | likewise, `](./NN-slug.md)` and `](/NN-slug.md)` become `](/<productId>/<currentCategory>/slug)`, which is `/<productId>//slug` outside `docs/content/<dir>/` |
| FetchLinks.BareLinkUnchanged | scripts/fetch-docs.ts:107-126 | likewise, a bare `](NN-slug.md)` is kept as it is, despite the comment at line 122 |
| FetchLinks.UntouchedPiece | scripts/fetch-docs.ts:107-126 | a piece without `.md)` that starts at a `]`, with closed text in front of it and of the next `]`, is kept as it is while the rest of the document is rewritten around it |
| FetchLinks.NoBracketClosed | scripts/fetch-docs.ts:107-126 | text without `]` is rewritten to itself and is closed |
| FetchLinks.CategoryLinkSwallowed | scripts/fetch-docs.ts:119-120 | `](g` + `](cat/w.md)` with `g` free of `/` and `.` is one category match with category `g](cat`, which differs from rewriting the inner link alone |
| FetchSync.BaseName | scripts/fetch-docs.ts:92 | the base name is the part after the last `/` |
| FetchSync.BaseNameOfJoin | scripts/fetch-docs.ts:92 | the base name of `dir/name` is `name` |
| FetchSync.FrontmatterTitle | scripts/fetch-docs.ts:92-96 | the title has one character per character of the stem (base name without `.md` and without a numeric prefix), capitalised at word starts and with `-` turned into a space |
| FetchSync.TitleSplitsOnDashOnly | scripts/fetch-docs.ts:94 | an `_` in the stem stays in the title and no `-` remains |
| FetchSync.TitleOfNumberedFile | scripts/fetch-docs.ts:92-96 | `dir/NN-name.md` gets the title of `name` split on `-` only |
| FetchSync.MyTopicWords | scripts/fetch-docs.ts:93-96 | `my_topic` gives the title `My_topic` |
| FetchSync.WithFrontmatter | scripts/fetch-docs.ts:89-98 | content whose trimmed form starts with `---` passes through unchanged; other content gets the block `---\ntitle: "<T>"\n---\n\n` in front of it, unchanged |
| FetchSync.WithFrontmatterIdempotent | scripts/fetch-docs.ts:89-98 | the result always has frontmatter, so applying the step again changes nothing |
| FetchSync.PrepareDocument | scripts/fetch-docs.ts:75-101 | the document fails exactly when the download fails or the content holds `\0`, which is rejected with the binary-file message before any frontmatter or rewriting |
| FetchSync.PlainDocumentUnchanged | scripts/fetch-docs.ts:84-101 | text with frontmatter and no `.md)` link is written exactly as downloaded |
| FetchSync.Cleared | scripts/fetch-docs.ts:160-161 | clearing the output directory removes exactly the entry at its own path and the files under it, and keeps every other file as it was |
| FetchSync.ContentStore.DownloadFile | scripts/fetch-docs.ts:67-105 | the store gains the prepared document at the output path, or stays as it was while the error is returned |
| FetchSync.ContentStore.SyncDirectory | scripts/fetch-docs.ts:128-148 | the store is the old store with the sync's writes applied in listing order, and the outcome is the sync's |
| FetchSync.ContentStore.SyncEntry | scripts/fetch-docs.ts:139-146 | a file entry is downloaded to and a directory mirrored into `join(localPath, item.name)`; other kinds are skipped |
| FetchSync.ContentStore.FetchProductDocs | scripts/fetch-docs.ts:150-184 | the store and outcome are those of clearing, syncing and applying the failure policy |
| FetchSync.ApplyConcat | scripts/fetch-docs.ts:138-147 | applying two write runs one after the other equals applying them joined |
| FetchSync.SyncItemsPass | scripts/fetch-docs.ts:138-147 | after an entry that succeeds, the loop's writes are that entry's writes followed by those of the remaining entries |
| FetchSync.SyncDirWritesUnder | scripts/fetch-docs.ts:136-147 | every file the sync writes lies under the local directory it mirrors into |
| FetchSync.ApplyLocal | scripts/fetch-docs.ts:103-104 | writes under a directory leave every file outside it as it was, a file at the directory's own path included |
| FetchSync.ApplyFrame | scripts/fetch-docs.ts:128-148 | the sync's effect does not depend on files already stored |
| FetchSync.FetchPolicy | scripts/fetch-docs.ts:158-183 | the store ends as the cleared store plus this run's writes; success is `Synced`, a failure after at least one write keeps the cache, a failure with nothing written propagates |
| FetchSync.RootListingFailurePropagates | scripts/fetch-docs.ts:158-183 | a failure of the very first listing always propagates its cascade message and leaves the directory empty |
| FetchSync.FetchKeepsOtherFiles | scripts/fetch-docs.ts:150-184 | files outside the output directory are untouched, and a file at the directory's own path is gone |
| SitePaths.GetPathFromFile | scripts/validate-links.ts:36-51 | the derived path is empty or starts with `/moat/` |
| SitePaths.EmptyPathIffNoContentFile | scripts/validate-links.ts:42-43 | the path is empty exactly when no `src/content/moat/….md` part occurs |
| SitePaths.NumberedFileServed | scripts/validate-links.ts:37-50 | `…src/content/moat/cat/NN-name.md` gives `/moat/cat/name` |
| SitePaths.PlainFileServed | scripts/validate-links.ts:41-46 | `…src/content/moat/path.md` with no numbered segment gives `/moat/path` |
| SitePaths.TopLevelKeepsNumber | scripts/validate-links.ts:39-46 | a top-level `src/content/moat/NN-x.md` keeps its number: `/moat/NN-x` |
| SitePaths.NumberedIsCandidate | scripts/validate-links.ts:39-42 | wherever the numbered pattern matches, the plain pattern matches too |
| SitePaths.PlainFromNone | scripts/validate-links.ts:42 | the plain pattern fails exactly when no position is a candidate |
| ValidateLinks.LinkAt | scripts/validate-links.ts:59-66 | a link found at `i` is the text of the line from `i` to its end |
| ValidateLinks.ExecFrom | scripts/validate-links.ts:65 | a link found from `lastIndex` lies after it within the line |
| ValidateLinks.ExecLeftmost | scripts/validate-links.ts:59-65 | `exec` returns the leftmost link from `lastIndex` on, or none exactly when no position starts one |
| ValidateLinks.LinkAtShape | scripts/validate-links.ts:59-67 | every link is `[text](/moat/rest)` with non-empty text free of `]` and non-empty rest free of `)`, and its target is `/moat/` + rest |
| ValidateLinks.LinkAtFinds | scripts/validate-links.ts:59-67 | conversely, `[text](/moat/rest)` is found where it starts, with its full text and target |
| ValidateLinks.LinksOrdered | scripts/validate-links.ts:63-75 | the links of a line are real matches, in position order, and do not overlap |
| ValidateLinks.Reports | scripts/validate-links.ts:69-74 | one record per link |
| ValidateLinks.ReportsFacts | scripts/validate-links.ts:69-74 | record `k` carries the file, the line number, and link `k`'s text and target |
| ValidateLinks.LineLinks | scripts/validate-links.ts:62-75 | the `while (exec)` loop pushes the records of every link of the line, in order |
| ValidateLinks.FindInternalLinks | scripts/validate-links.ts:54-79 | the loops produce the records of every line in order |
| ValidateLinks.LinesReportsFacts | scripts/validate-links.ts:61-76 | records name the file, carry line numbers between the line's index + 1 and the number of lines, and are ordered by line |
| ValidateLinks.InternalLinksLines | scripts/validate-links.ts:54-79 | every record has `1 <= line <= number of lines` and the records are ordered by line |
| ValidateLinks.MarkdownFilesAreWalked | scripts/validate-links.ts:17-30 | the pushed files are exactly the `.md` file entries of the depth-first walk, in walk order |
| ValidateLinks.MarkdownCollector.constructor | scripts/validate-links.ts:15 | the collector starts with no files |
| ValidateLinks.MarkdownCollector.Traverse | scripts/validate-links.ts:17-30 | traversing appends the `.md` files of the tree, depth-first, to what was collected |
| ValidateLinks.GetMarkdownFiles | scripts/validate-links.ts:14-33 | returns exactly the `.md` regular files of the walk, in depth-first listing order |
| ValidateLinks.ValidPathsMembers | scripts/validate-links.ts:86-95 | a path is valid exactly when it is non-empty and derived from one of the files |
| ValidateLinks.NumberedPageValid | scripts/validate-links.ts:86-95 | the page of a numbered content file is in the valid set |
| ValidateLinks.BrokenMembers | scripts/validate-links.ts:111-115 | a record is broken exactly when it is a link record whose target is not valid |
| ValidateLinks.BrokenConcat | scripts/validate-links.ts:107-116 | the broken links of a concatenation are those of each part in order, so file-then-line order is kept |
| ValidateLinks.NoneBroken | scripts/validate-links.ts:119-135 | nothing is broken exactly when every target is valid |
| ValidateLinks.CollectBroken | scripts/validate-links.ts:111-115 | the inner loop appends the broken links of one file to those found so far |
| ValidateLinks.CheckLinks | scripts/validate-links.ts:81-136 | the valid set and broken list are those derived from all files, and the exit code is 0 exactly when every link's target is valid, 1 otherwise |
| Agreement.ParentLinksAgree | scripts/fetch-docs.ts:114-116 | for `../cat/NN-slug.md` with productId `moat`, the plugin gives `/moat/cat/slug`, and the batch rewriter writes the same url into the link anywhere in a document whose text in front is closed |
| Agreement.BareLinksDisagree | scripts/fetch-docs.ts:122-125 | a bare `NN-slug.md` is rewritten by the plugin but kept by the batch rewriter, anywhere in a document whose text in front is closed |
| Agreement.CategoriesDisagree | scripts/fetch-docs.ts:109-110 | for `docs/content/cat/…`, with no `/` in `cat` and no `moat` in `cat` or the rest, the batch rewriter's category is `cat` and the plugin's is `docs` |
| Agreement.UnderscoreTitlesDisagree | scripts/fetch-docs.ts:94 | for `NN-a_b.md` the frontmatter title is `A_b` while `titleCase` gives `A B` |

## Left out

- I/O is not modelled. The process calls to `gh`, base64 decoding and the
  30000 ms timeouts are replaced by given outcomes (`Exec`, `Download`,
  `Listing`). `fs.rm`, `mkdir` and `writeFile` are replaced by updates of a
  map. `readdir` and `readFile` are replaced by given trees and contents.
- Failures of `mkdir`, `writeFile` and `rm`, and failures of `readdir` or
  `readFile` in the validator, are not modelled. The validator's contents
  are given for every file.
- A listing that is not an array, and JSON values other than objects, are
  not modelled. A parsed response is carried as its text.
- Console output, argv parsing, product lookup and `process.exit` are left
  out. The validator's exit code is modelled, but the sorted listing of
  valid pages and the report text are not. Neither is the
  working-directory-relative file name in that text.
- The validator's content directory, `join(process.cwd(), …)`, is an
  argument.
- `path.join` is `dir + "/" + name`. The normalisation of `.`, `..` and
  repeated slashes is not modelled.
- The tree walk of `unist-util-visit` is not modelled. Only the per-node
  guard and rewrite are.
- Text.ToUpper: upper-cases ASCII letters only; `toUpperCase` on other
  letters is not modelled.
- Text.Take: counts characters, not UTF-16 code units.
- FetchSync.ContentStore: directories are not stored. A directory exists
  exactly when some stored file lies under it, so the check for an empty
  output directory looks for stored files under it.
- FetchLinks.ParentLinkRewritten: the category is taken free of `]`. A
  category holding `](` is the case where one match runs over two links.
  It is shown for the category pattern only, by
  `FetchLinks.CategoryLinkSwallowed`.
- FetchLinks.CategoryLinkRewritten: the category is taken free of `]`, for
  the same reason.
- Timing, concurrency and the promise plumbing around `await` are left out.
  The calls run one after another in the source too.
