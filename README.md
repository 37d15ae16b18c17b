# AVIR site migration scripts, modelled in Dafny

The repository holds the AVIR website as static pages and the operator scripts used
to move it off its original hosting. This project models the logic of those scripts
and proves properties of it:

- the page-comparison verifier `verify-all.js`. It decides a status for each page from
  an origin and a mirror fetch, crops two screenshots to their shared region, applies
  the 1% visual threshold, runs pages in fixed-size batches and sets the exit code;
- the end-to-end screenshot comparator `scripts/e2e/e2e-crawler.js`. It covers the
  request queue, the page names, the 5% pass band, the report summary and the exit code;
- the production audit `scripts/visual-audit-v2.js`. It covers URLs, screenshot names,
  scroll positions and the tally of audited and failed pages around a browser that may
  crash;
- the HTML text rewriters: `scripts/inject-seo.js`, `scripts/add-canonical-tags.js`,
  `scripts/fix-html-files.py`, `scripts/repair-html.py`, `scripts/repair-html-heads.py`,
  `scripts/repair-footer.py` and `scripts/download-cdn-images.py`.

## Layout

There is one module per script; the file name follows the script's name:
`VerifyAll`, `E2ECrawler`, `VisualAudit`, `InjectSeo`, `AddCanonicalTags`,
`FixHtmlFiles`, `RepairHtml`, `RepairHtmlHeads`, `RepairFooter` and `DownloadCdnImages`.
Three shared modules support them:

- `Text`: an `Option` type, occurrence search, prefix and suffix tests, ASCII case,
  JavaScript and Python trimming, and splitting and joining;
- `Rewrite`: leftmost, non-overlapping substitution. This is what `re.sub`,
  `str.replace` and a global JavaScript `replace` do. A regular expression is written
  by hand as a matcher, a function that tells how long a match starting at the
  current position is. There is no general regex engine;
- `JsNumber`: the JavaScript number rules the thresholds depend on. These are NaN,
  the infinities from division by zero, and comparisons with NaN being false.

Each script keeps its own form:

- pure helpers become functions with named results;
- loops that build lists or update counters become methods with loop invariants;
- the crop in `verify-all.js` writes into an `array`;
- the crawler runner and the audit run, whose fields the scripts update in place, are
  classes.

Anything outside the program is a parameter: file contents and file lists, fetch
results, screenshots, pixelmatch's differing-pixel count, command-line arguments and
thrown errors.

The scripts do not de-duplicate the page list, and they do not reject an empty one.
An empty paths file gives one empty path (`VerifyAll.ReadPathsEmpty`). The model
follows the scripts.

## Model

| member | source | states |
|---|---|---|
| `AddCanonicalTags.PagePath` | scripts/add-canonical-tags.js:16-17 | the page path never holds a backslash: every `\` becomes `/` before the two removals |
| `AddCanonicalTags.PagePathOfIndex` | scripts/add-canonical-tags.js:16-17 | `dir/index.html` has the page path `dir`, and `index/index.html` the empty path |
| `AddCanonicalTags.PagePathOfHtml` | scripts/add-canonical-tags.js:16-17 | `stem.html` has the page path `stem`, and `index.html` the empty path |
| `AddCanonicalTags.PagePathSeparators` | scripts/add-canonical-tags.js:16 | a Windows path and its `/` form give the same page path |
| `AddCanonicalTags.TagCarriesRel` | scripts/add-canonical-tags.js:19-20 | every canonical tag holds `rel="canonical"`, the marker the skip test looks for |
| `AddCanonicalTags.FirstGt` | scripts/add-canonical-tags.js:30 | the first `>` at or after a position, with none before it |
| `AddCanonicalTags.MetaCharset` | scripts/add-canonical-tags.js:30 | a match of `/(<meta charset[^>]+>)/i` opens with `<meta charset` in any case, has at least one non-`>` character and ends at the first `>` |
| `AddCanonicalTags.SkippedIffPresent` | scripts/add-canonical-tags.js:24-26 | a file is skipped exactly when it already contains `rel="canonical"` |
| `AddCanonicalTags.InsertedAfterMeta` | scripts/add-canonical-tags.js:28-32 | with `<meta charset` present, the result is the text up to the end of the first matching meta tag, a newline, four spaces, the tag, and the rest unchanged |
| `AddCanonicalTags.InsertedAfterHead` | scripts/add-canonical-tags.js:33-37 | otherwise the tag goes after the first `<head>`, with the newline and four spaces, and nothing else changes |
| `AddCanonicalTags.UnchangedButCounted` | scripts/add-canonical-tags.js:28-41 | a `<meta charset` the pattern does not match (then `<head>` is not tried), or neither anchor, writes the file back unchanged, and it is still counted |
| `AddCanonicalTags.LinkAfterMeta` | scripts/add-canonical-tags.js:28-32 | the meta-tag insertion puts the canonical marker in the page |
| `AddCanonicalTags.LinkAfterHead` | scripts/add-canonical-tags.js:33-37 | the `<head>` insertion puts the canonical marker in the page |
| `AddCanonicalTags.LinkInserted` | scripts/add-canonical-tags.js:28-38 | whenever an anchor is found, the result contains the marker |
| `AddCanonicalTags.SecondRunSkips` | scripts/add-canonical-tags.js:24-38 | a file that got its link is skipped when the script runs again |
| `AddCanonicalTags.CanonicaliseFile` | scripts/add-canonical-tags.js:14-41 | the callback body for one file returns the outcome the specification function `Canonicalised` gives |
| `AddCanonicalTags.WrittenCount` | scripts/add-canonical-tags.js:41 | the number of writes is at most the number of files |
| `AddCanonicalTags.AlreadyCanonical` | scripts/add-canonical-tags.js:24-26 | the files that are skipped are files of the site that carry the marker |
| `AddCanonicalTags.AddCanonicalTags` | scripts/add-canonical-tags.js:10-43 | one outcome per file, in order, each the one `Canonicalised` gives, and `updated` is the number of writes |
| `AddCanonicalTags.UpdatedCountsUnskipped` | scripts/add-canonical-tags.js:11-41 | `updated` is the number of files minus those that already had a canonical link |
| `DownloadCdnImages.UrlRun` | scripts/download-cdn-images.py:15 | the greedy run of `[^"'<>\s)]`: every character before it is a URL character, the one after is not |
| `DownloadCdnImages.CdnUrlMatch` | scripts/download-cdn-images.py:15-16 | every match of the pattern is the CDN root followed by at least one URL character |
| `DownloadCdnImages.FindAllCdnUrls` | scripts/download-cdn-images.py:16 | everything `re.findall` returns is such a CDN URL |
| `DownloadCdnImages.CdnAssetUrlsSound` | scripts/download-cdn-images.py:14-23 | every kept URL is a CDN URL of the text whose part before `?` ends with one of the thirteen extensions |
| `DownloadCdnImages.QueryIgnored` | scripts/download-cdn-images.py:20-21 | the query after `?` does not decide whether a URL is kept |
| `DownloadCdnImages.UpperCaseExtension` | scripts/download-cdn-images.py:21 | the extension test ignores case: `.PNG` is kept |
| `DownloadCdnImages.GetCdnUrls` | scripts/download-cdn-images.py:14-23 | the loop that adds kept URLs one by one returns exactly the set `CdnAssetUrls` |
| `DownloadCdnImages.CdnAssetUrls` | scripts/download-cdn-images.py:14-23 | the kept URLs of a text; `CdnAssetUrlsSound`, `QueryIgnored` and `UpperCaseExtension` state which are kept, and `GetCdnUrls` computes the set |
| `DownloadCdnImages.PathEnd` | scripts/download-cdn-images.py:27 | the path part stops at the first `?` or `#` |
| `DownloadCdnImages.HostEnd` | scripts/download-cdn-images.py:27 | the host stops at the first `/`, `?` or `#` |
| `DownloadCdnImages.LastSlash` | scripts/download-cdn-images.py:27 | the last `/` of the path, none after it |
| `DownloadCdnImages.WithoutParams` | scripts/download-cdn-images.py:27 | dropping the `;` parameters of the last segment leaves a prefix of the path |
| `DownloadCdnImages.QueryNotInPath` | scripts/download-cdn-images.py:26-38 | URLs that differ only in their query have the same path and the same local URL and file |
| `DownloadCdnImages.Flatten` | scripts/download-cdn-images.py:29 | `replace('/', '_')`: same length, no `/` left, every other character kept |
| `DownloadCdnImages.LocalFilename` | scripts/download-cdn-images.py:28-29 | the local file name holds no `/` |
| `DownloadCdnImages.Directory` | scripts/download-cdn-images.py:31-38 | each category's directory is a non-empty single segment |
| `DownloadCdnImages.LocalInfoShape` | scripts/download-cdn-images.py:31-38 | the local URL splits into the empty root, the category's directory and the file name, and the disk path is that URL under the site directory |
| `DownloadCdnImages.UrlToLocalInfo` | scripts/download-cdn-images.py:26-38 | url_to_local_info; `LocalInfoShape`, `TwoSegments`, `ScriptsFirst`, `LocalUrlSingleSlashes`, `LocalUrlInert` and `QueryNotInPath` state the local URL and path it gives |
| `DownloadCdnImages.TwoSegments` | scripts/download-cdn-images.py:32-38 | a local URL splits at `/` into an empty root, the directory and the file name |
| `DownloadCdnImages.ScriptsFirst` | scripts/download-cdn-images.py:31-32 | a name holding `.js` is a script, whatever else it holds (`.json`, `.css`) |
| `DownloadCdnImages.LocalUrlSingleSlashes` | scripts/download-cdn-images.py:32-38 | a local URL never holds `//` |
| `DownloadCdnImages.LocalUrlInert` | scripts/download-cdn-images.py:69-71 | no CDN URL occurs inside a local URL, so a later replacement cannot touch an earlier one's result |
| `DownloadCdnImages.AttributeName` | scripts/download-cdn-images.py:61 | the alternation of `src`, `href` and `content` matches within the text |
| `DownloadCdnImages.NameRecognised` | scripts/download-cdn-images.py:61 | each of the three names is matched whatever follows it |
| `DownloadCdnImages.RelativeAttribute` | scripts/download-cdn-images.py:61 | a match is the name, `=`, one quote and `images/` |
| `DownloadCdnImages.NoEqualsNoAttribute` | scripts/download-cdn-images.py:61 | a text without `=` holds no match |
| `DownloadCdnImages.AttributeMatch` | scripts/download-cdn-images.py:61 | the name, `=`, either quote and `images/` are one match |
| `DownloadCdnImages.AttributeQuoteMismatch` | scripts/download-cdn-images.py:61 | as written, `src='images/a.png'` becomes `src="/images/a.png'`, with mismatched quotes |
| `DownloadCdnImages.AttributeQuoteKept` | scripts/download-cdn-images.py:61 | with the opening quote kept, a reference quoted either way keeps its quotes |
| `DownloadCdnImages.RelativeUrlLeads` | scripts/download-cdn-images.py:62 | every match of the `url(` pattern starts with `url(` |
| `DownloadCdnImages.BareUrlMatch` | scripts/download-cdn-images.py:62 | `url(images/` with no quote is a match |
| `DownloadCdnImages.UrlQuoteUnclosed` | scripts/download-cdn-images.py:62 | as written, `url(images/a.png)` becomes `url("/images/a.png)`, a quote that is never closed |
| `DownloadCdnImages.UrlQuoteKept` | scripts/download-cdn-images.py:62 | with the quote kept as found, an unquoted reference stays unquoted |
| `DownloadCdnImages.LazyUntil` | scripts/download-cdn-images.py:63-64 | the lazy `.*?` run ends where the following text fits |
| `DownloadCdnImages.FixRelativeAsWritten` | scripts/download-cdn-images.py:61-64 | the four relative-path substitutions as written; `AttributeQuoteMismatch` and `UrlQuoteUnclosed` show the quotes they break |
| `DownloadCdnImages.FixRelative` | scripts/download-cdn-images.py:61-64 | the same substitutions keeping the quote found; `AttributeQuoteKept` and `UrlQuoteKept` state that quotes survive |
| `DownloadCdnImages.LocalisedPair` | scripts/download-cdn-images.py:69-71 | two replacements in order are two `str.replace` calls |
| `DownloadCdnImages.Localised` | scripts/download-cdn-images.py:69-71 | the `str.replace` of each URL of an order by its local URL, in that order; `LocalisedPair`, `LongerUrlKept` and `ShorterFirstClobbers` state why longest first matters |
| `DownloadCdnImages.LongerUrlKept` | scripts/download-cdn-images.py:69-71 | longest first: once a longer URL is replaced, a shorter one cannot touch its local URL |
| `DownloadCdnImages.ShorterFirstClobbers` | scripts/download-cdn-images.py:69-71 | replacing a shorter URL that starts a longer one first would break the longer one, which is why the order matters |
| `DownloadCdnImages.UpdateFile` | scripts/download-cdn-images.py:55-75 | one file: the four relative-path fixes of lines 61-64 as written, then each kept CDN URL replaced longest first, which is `Updated`; written exactly when the content changed |
| `DownloadCdnImages.Updated` | scripts/download-cdn-images.py:59-71 | the script's new text of a file: `FixRelativeAsWritten`, then `Localised` in a longest-first order; `UpdateFile` computes it |
| `DownloadCdnImages.UpdatedIntended` | scripts/download-cdn-images.py:59-71 | the same update with the quote-keeping `FixRelative` of the Findings table in place of lines 61-62 as written |
| `DownloadCdnImages.AllUrlsIff` | scripts/download-cdn-images.py:96-104 | a URL is collected exactly when some readable file holds it |
| `DownloadCdnImages.CollectUrls` | scripts/download-cdn-images.py:96-104 | main's first loop returns the union over readable files, skipping unreadable ones |
| `DownloadCdnImages.Attempt` | scripts/download-cdn-images.py:113-121 | one URL adds one to exactly one counter; `failed` grows exactly when the file was absent and the fetch failed; no file disappears |
| `DownloadCdnImages.Downloads` | scripts/download-cdn-images.py:108-121 | the download loop as a fold of `Attempt` over the sorted URLs; `DownloadsStep`, `DownloadsCount`, `DownloadsLeaveFiles`, `AllPresentNoFailures` and `CountersCoverUrls` state its counters and files |
| `DownloadCdnImages.DownloadsStep` | scripts/download-cdn-images.py:112-121 | the loop over a prefix plus one more URL is one more attempt |
| `DownloadCdnImages.DownloadAssets` | scripts/download-cdn-images.py:108-121 | the download loop ends in the state `Downloads` gives |
| `DownloadCdnImages.DownloadsCount` | scripts/download-cdn-images.py:108-121 | every URL is counted once, as downloaded or failed, and no file goes away |
| `DownloadCdnImages.DownloadsLeaveFiles` | scripts/download-cdn-images.py:112-121 | after the loop, the file of every URL whose fetch succeeds is on disk |
| `DownloadCdnImages.AllPresentNoFailures` | scripts/download-cdn-images.py:114-115 | with every file already present nothing fails and every URL counts as downloaded |
| `DownloadCdnImages.EnumerationSize` | scripts/download-cdn-images.py:112 | a sorted set lists each element once, so it is as long as the set |
| `DownloadCdnImages.CountersCoverUrls` | scripts/download-cdn-images.py:106-123 | processed plus failed is the number of unique URLs |
| `E2ECrawler.PageName` | scripts/e2e/e2e-crawler.js:46 | every `/` becomes `_`, nothing else changes, and only the empty path falls back to `homepage` |
| `E2ECrawler.PageNameRoot` | scripts/e2e/e2e-crawler.js:46 | the root path `/` is named `_`, not `homepage` |
| `E2ECrawler.Pathname` | scripts/e2e/e2e-crawler.js:44-45 | the pathname of the site URL joined with the empty path or a plain path (one the URL parser copies unchanged) is `/` or that path, and always starts with `/` |
| `E2ECrawler.HandlerAndComparatorNames` | scripts/e2e/e2e-crawler.js:44-46 | for the empty or a plain manifest path, the handler never falls back to `homepage`; for a plain path it names the page as the comparator does, and for the empty path the names differ, so those screenshots are never found |
| `E2ECrawler.QueueOf` | scripts/e2e/e2e-crawler.js:150-163 | two requests per manifest path |
| `E2ECrawler.QueueKeys` | scripts/e2e/e2e-crawler.js:150-163 | every queued request is the live or the deployed request of a manifest path |
| `E2ECrawler.PrefixKeysDiffer` | scripts/e2e/e2e-crawler.js:154-159 | a `live-` key never equals a `deployed-` key, and each prefix determines the path |
| `E2ECrawler.QueueUniqueKeys` | scripts/e2e/e2e-crawler.js:150-163 | distinct manifest paths give distinct unique keys, so the crawler drops no request |
| `E2ECrawler.PassedBand` | scripts/e2e/e2e-crawler.js:223-224 | for a non-negative or undefined percentage, passing is being below 5% and an improvement is the band (0, 5); NaN fails |
| `E2ECrawler.DiffRule` | scripts/e2e/e2e-crawler.js:217-224 | in integers: passing is `20 * diff < w * h`, improvement adds `0 < diff`, and an empty compared region (NaN or Infinity) fails |
| `E2ECrawler.Score` | scripts/e2e/e2e-crawler.js:191-237 | a scored entry compares the shared size (the smaller width and height) and passes or improves by that rule |
| `E2ECrawler.DiffPercentage` | scripts/e2e/e2e-crawler.js:217-221 | `(numDiffPixels / totalPixels) * 100` in JavaScript numbers; `DiffRule` states when it passes or improves, and that an empty region (NaN or Infinity) fails |
| `E2ECrawler.IsImprovement` | scripts/e2e/e2e-crawler.js:223 | the improvement band (0, 5); `PassedBand` and `DiffRule` state it and the pass rule it widens |
| `E2ECrawler.CompareOne` | scripts/e2e/e2e-crawler.js:177-257 | a page gets an entry exactly when both screenshots exist, and the entry is for that page |
| `E2ECrawler.ComparisonsOf` | scripts/e2e/e2e-crawler.js:176-260 | at most one entry per manifest path, each for a manifest page |
| `E2ECrawler.NothingPresent` | scripts/e2e/e2e-crawler.js:182-185 | with no screenshot on disk nothing is compared |
| `E2ECrawler.LabelsDisagree` | scripts/e2e/e2e-crawler.js:239-248 | the console symbol and the report label disagree exactly in the band 0 < d < 1%, which the console marks as passed and the report as improved |
| `E2ECrawler.CountPassed` | scripts/e2e/e2e-crawler.js:273 | the number passed is at most the number of entries |
| `E2ECrawler.CountFailed` | scripts/e2e/e2e-crawler.js:274 | the number failed is at most the number of entries |
| `E2ECrawler.CountImprovements` | scripts/e2e/e2e-crawler.js:266 | the number of improvements is at most the number of entries |
| `E2ECrawler.PassedPlusFailed` | scripts/e2e/e2e-crawler.js:273-274 | passed and failed add up to the number of entries |
| `E2ECrawler.Summarize` | scripts/e2e/e2e-crawler.js:266-279 | passed plus failed is the number of entries, improvements are at most that, and with no entries the average is NaN |
| `E2ECrawler.SumNaN` | scripts/e2e/e2e-crawler.js:276-278 | one NaN percentage makes the sum NaN |
| `E2ECrawler.AverageNaN` | scripts/e2e/e2e-crawler.js:276-278 | and so the average |
| `E2ECrawler.AverageCountsErrors` | scripts/e2e/e2e-crawler.js:276-278 | an errored entry counts in the denominator: one page 2% apart and one errored page average 1% |
| `E2ECrawler.ExitCode` | scripts/e2e/e2e-crawler.js:461-478 | the exit status is 1 exactly when some entry did not pass, else 0 |
| `E2ECrawler.FailedPositive` | scripts/e2e/e2e-crawler.js:461-478 | the failed count is positive exactly when some entry did not pass |
| `E2ECrawler.ResultFor` | scripts/e2e/e2e-crawler.js:40-122 | the recorded result is live exactly when the URL holds `www.avir.com`, its status is the response's or 0 without one, and its screenshot name comes from the pathname |
| `E2ECrawler.E2ETestRunner.constructor` | scripts/e2e/e2e-crawler.js:21-24 | a runner starts with no results and the given manifest |
| `E2ECrawler.E2ETestRunner.QueueRequests` | scripts/e2e/e2e-crawler.js:150-163 | the loop queues exactly `QueueOf(manifest)`, as many requests as the crawl's request limit |
| `E2ECrawler.E2ETestRunner.HandleRequest` | scripts/e2e/e2e-crawler.js:39-141 | a visit appends its result; a thrown error appends nothing |
| `E2ECrawler.E2ETestRunner.CompareScreenshots` | scripts/e2e/e2e-crawler.js:171-261 | the loop returns exactly `ComparisonsOf(manifest)` |
| `E2ECrawler.E2ETestRunner.Report` | scripts/e2e/e2e-crawler.js:266-279 | the report summary of the run's manifest, results and comparisons; `Summarize`, `PassedPlusFailed`, `AverageNaN`, `AverageCountsErrors` and `FailedPositive` state its counts and average |
| `FixHtmlFiles.Branding` | scripts/fix-html-files.py:37-44 | a stripped title always comes out starting with `AVIR` and a bar, or with `AVIR:` |
| `FixHtmlFiles.FixTitle` | scripts/fix-html-files.py:34-44 | an empty title becomes `AVIR`; any other comes out branded |
| `FixHtmlFiles.BrandedTitleKept` | scripts/fix-html-files.py:37-41 | a title whose stripped text is branded is kept, stripped |
| `FixHtmlFiles.BareBrandCompleted` | scripts/fix-html-files.py:37-43 | `AVIR`, with any surrounding space, becomes the full site title |
| `FixHtmlFiles.OtherTitlePrefixed` | scripts/fix-html-files.py:37-44 | any other title gets `AVIR`, a space, a bar and a space in front of its stripped text |
| `FixHtmlFiles.BrandingStripped` | scripts/fix-html-files.py:37-44 | the branded result of a stripped text has no space at either end |
| `FixHtmlFiles.NonBlankBranded` | scripts/fix-html-files.py:35-37 | a title with non-blank text is branded after stripping |
| `FixHtmlFiles.BrandedKept` | scripts/fix-html-files.py:40-41 | branding leaves a branded text as it is |
| `FixHtmlFiles.BrandingFixed` | scripts/fix-html-files.py:34-44 | the branding of a stripped text is a fixed point of fix_title |
| `FixHtmlFiles.FixTitleIdempotent` | scripts/fix-html-files.py:34-44 | fix_title is idempotent on every title whose text is not blank |
| `FixHtmlFiles.EmptyTitleNotIdempotent` | scripts/fix-html-files.py:35-43 | the empty title becomes `AVIR`, which a second run completes to the site title |
| `FixHtmlFiles.BlankTitleNotIdempotent` | scripts/fix-html-files.py:35-44 | a blank title becomes `AVIR`, a space, a bar and a space, whose trailing space a second run strips |
| `FixHtmlFiles.BarSpaceStripped` | scripts/fix-html-files.py:37 | stripping the branding prefix leaves `AVIR`, a space and a bar |
| `FixHtmlFiles.TitleElementFixed` | scripts/fix-html-files.py:52-57 | a title element whose text has no `<` gets the fixed title and nothing else changes |
| `FixHtmlFiles.FixTitles` | scripts/fix-html-files.py:52-57 | every `<title>` element gets fix_title of its text; `TitleElementFixed` states it for a page title, and the `FixTitle` lemmas state the branding |
| `FixHtmlFiles.FixImagePath` | scripts/fix-html-files.py:82-86 | every fixed image path lies under the CDN base |
| `FixHtmlFiles.PrefixedImageSameAsPlain` | scripts/fix-html-files.py:82-86 | a name with the site-id prefix goes where the name without it goes |
| `FixHtmlFiles.OnePrefixDropped` | scripts/fix-html-files.py:83-84 | only one leading prefix is dropped |
| `FixHtmlFiles.LooseHostMatches` | scripts/fix-html-files.py:106-110 | the CDN base goes into the pattern unescaped, so `https://cdn-prod.website-files.com/...` matches too |
| `FixHtmlFiles.AddFontsIdempotent` | scripts/fix-html-files.py:115-122 | once the fonts block is in, a second run does not insert it again |
| `FixHtmlFiles.AddFonts` | scripts/fix-html-files.py:115-122 | without the css2 stylesheet, the fonts block after every viewport tag; `AddFontsIdempotent` states a second run adds nothing |
| `FixHtmlFiles.OpacityZeroAt` | scripts/fix-html-files.py:126 | `{opacity:`, white space and `0;` are one match of the pattern's tail |
| `FixHtmlFiles.HiddenContentAt` | scripts/fix-html-files.py:126 | `.page-content`, white space and that tail are one match |
| `FixHtmlFiles.HiddenRuleShown` | scripts/fix-html-files.py:125-129 | a hidden page-content rule, however spaced, becomes `.page-content {opacity:1;` |
| `FixHtmlFiles.ShiftUndone` | scripts/fix-html-files.py:130-134 | a shifted rule, however spaced, becomes `transform: translate(0px)` |
| `FixHtmlFiles.ShowContent` | scripts/fix-html-files.py:124-134 | the opacity and transform rewrites; `HiddenRuleShown` and `ShiftUndone` state them for any spacing |
| `FixHtmlFiles.AddLeftBarIdempotent` | scripts/fix-html-files.py:137-143 | the left-bar step changes nothing when run a second time |
| `FixHtmlFiles.FontsBringLeftBar` | scripts/fix-html-files.py:115-143 | when the inserted fonts block carries the left-bar rule, the left-bar step adds nothing |
| `FixHtmlFiles.AddLeftBar` | scripts/fix-html-files.py:136-143 | without a left-bar rule, one after every shown rule; `AddLeftBarIdempotent` and `FontsBringLeftBar` state when it adds nothing |
| `FixHtmlFiles.LiveChatEndFound` | scripts/fix-html-files.py:173 | the lazy `.*?` stops at the first end marker |
| `FixHtmlFiles.LiveChatAt` | scripts/fix-html-files.py:173 | a LiveChat block up to its first end marker is one match |
| `FixHtmlFiles.LiveChatRemoved` | scripts/fix-html-files.py:172-177 | the block up to the first end marker is removed whole and the rest is processed on |
| `FixHtmlFiles.HrefOnlyAtStart` | scripts/fix-html-files.py:237-239 | in `href="v"` with no quote in v, a pattern that opens with `href="` can begin only at the start |
| `FixHtmlFiles.QuotedOccurrence` | scripts/fix-html-files.py:237-239 | so `href="v"` holds such a pattern only when `v"` starts with the pattern's tail |
| `FixHtmlFiles.TailLacks` | scripts/fix-html-files.py:237-239 | a quote-free text closed by a quote holds no text with a quote before its end |
| `FixHtmlFiles.QuotedPrefix` | scripts/fix-html-files.py:237-239 | two quote-free texts closed by a quote start each other only when equal |
| `FixHtmlFiles.IndexPageOnly` | scripts/fix-html-files.py:237 | a page link looks like the index link only for `index.html` |
| `FixHtmlFiles.PageHrefMatches` | scripts/fix-html-files.py:238 | `href="v.html"` is one match of the page pattern |
| `FixHtmlFiles.PageLinkTemplate` | scripts/fix-html-files.py:238 | the template `href="/\1"` on a page link turns `name.html` into `/name` |
| `FixHtmlFiles.PageLinkRewritten` | scripts/fix-html-files.py:238 | the page step rewrites `href="name.html"` to `href="/name"` |
| `FixHtmlFiles.IndexNeedsOwnStep` | scripts/fix-html-files.py:237-238 | the page step alone would send the index page to `/index` |
| `FixHtmlFiles.NotIndexKept` | scripts/fix-html-files.py:237 | the index step leaves any other link alone |
| `FixHtmlFiles.SingleSlashKept` | scripts/fix-html-files.py:239 | the double-slash step leaves a single leading slash alone |
| `FixHtmlFiles.RootNoPageAt` | scripts/fix-html-files.py:238 | no page link starts anywhere in the root link |
| `FixHtmlFiles.RootNoPage` | scripts/fix-html-files.py:237-238 | the page step leaves the root link alone |
| `FixHtmlFiles.RootNoDoubleSlash` | scripts/fix-html-files.py:237-239 | the root link holds no `href="//` |
| `FixHtmlFiles.IndexLinkRooted` | scripts/fix-html-files.py:237-239 | `href="index.html"` ends up as `href="/"` |
| `FixHtmlFiles.PageLinkRooted` | scripts/fix-html-files.py:237-239 | a relative page link `href="name.html"` ends up as `href="/name"` |
| `FixHtmlFiles.RootedLinkKept` | scripts/fix-html-files.py:237-239 | `href="/name.html"` ends up as `href="/name"`, with one slash |
| `FixHtmlFiles.DoubleSlashDropped` | scripts/fix-html-files.py:239 | the double-slash step drops the first slash of `href="//` |
| `FixHtmlFiles.FixLinks` | scripts/fix-html-files.py:237-239 | the three link rewrites in order; `IndexLinkRooted`, `PageLinkRooted`, `RootedLinkKept` and `DoubleSlashDropped` state where each kind of link ends up |
| `FixHtmlFiles.FixPaths` | scripts/fix-html-files.py:57-110 | titles, font scripts, stylesheets and image paths in the script's order; `RepairPaths` computes it, and `TitleElementFixed`, `FixImagePath` and `LooseHostMatches` state its steps |
| `FixHtmlFiles.FixStyles` | scripts/fix-html-files.py:112-143 | fonts, visibility and the left bar in order; `RepairStyles` computes it, and `AddFontsIdempotent`, `HiddenRuleShown`, `ShiftUndone` and `AddLeftBarIdempotent` state its steps |
| `FixHtmlFiles.FixScripts` | scripts/fix-html-files.py:145-235 | scripts and media in order; `RepairScripts` computes it, and `LiveChatRemoved` states its LiveChat step |
| `FixHtmlFiles.FixedHtml` | scripts/fix-html-files.py:57-239 | the whole pipeline; `FixHtmlFile` computes it and writes exactly when it changes the text |
| `FixHtmlFiles.RepairPaths` | scripts/fix-html-files.py:57-110 | the first substitutions, rebinding the text, give `FixPaths` |
| `FixHtmlFiles.RepairStyles` | scripts/fix-html-files.py:112-143 | the style substitutions, two of them guarded, give `FixStyles` |
| `FixHtmlFiles.RepairScripts` | scripts/fix-html-files.py:146-235 | the script and media substitutions give `FixScripts` |
| `FixHtmlFiles.RepairLinks` | scripts/fix-html-files.py:237-239 | the link substitutions give `FixLinks` |
| `FixHtmlFiles.FixHtmlFile` | scripts/fix-html-files.py:46-245 | the new text is the whole pipeline's result, and the file is written exactly when it changed |
| `InjectSeo.DecodeHtmlEntities` | scripts/inject-seo.js:41-47 | the loop over the entity table computes `Decoded`, the seven split-and-join replacements in table order |
| `InjectSeo.DecodeWithoutAmpersand` | scripts/inject-seo.js:43-45 | replacing entities that all start with `&` leaves a text without `&` unchanged |
| `InjectSeo.DecodedWithoutAmpersand` | scripts/inject-seo.js:41-47 | decoding leaves a text without `&` unchanged |
| `InjectSeo.LeadingAmpersandOnly` | scripts/inject-seo.js:43-45 | an entity is not found in `&u` when u has no `&` and differs from the entity's tail |
| `InjectSeo.DecodeSnoc` | scripts/inject-seo.js:43-45 | one more table entry is one more replace-all of that entry |
| `InjectSeo.DecodedSteps` | scripts/inject-seo.js:28-47 | decoding is the seven replace-all calls in the table's order |
| `InjectSeo.AmpersandBeforeApostrophe` | scripts/inject-seo.js:29-30 | `&#x27;` is replaced before `&amp;`, so `&amp;#x27;` decodes to `&#x27;`, not to an apostrophe |
| `InjectSeo.ApostropheEntityStays` | scripts/inject-seo.js:31-35 | the entries after `&amp;` leave `&#x27;` unchanged |
| `InjectSeo.AmpersandThenQuote` | scripts/inject-seo.js:30-31 | `&quot;` comes after `&amp;`, so `&amp;quot;` decodes twice, to `"` |
| `InjectSeo.DeleteKeepsOut` | scripts/inject-seo.js:53 | deleting matches brings in no character the text did not have |
| `InjectSeo.OpenWithoutClose` | scripts/inject-seo.js:53 | a `<` that starts no tag has no `>` after it |
| `InjectSeo.DeletedTagFree` | scripts/inject-seo.js:53 | after `replace(/<[^>]*>/g, '')` no tag is left |
| `InjectSeo.SliceTagFree` | scripts/inject-seo.js:53 | a piece of a tag-free text is tag-free |
| `InjectSeo.StripHtmlTags` | scripts/inject-seo.js:52-54 | the result is tag-free and has no white space at either end |
| `InjectSeo.StripWithoutTags` | scripts/inject-seo.js:52-54 | a text without `<` is only trimmed |
| `InjectSeo.TruncateText` | scripts/inject-seo.js:59-64 | a short text is kept; a long one ends with `...`, is at most the limit long, and its body is trimmed |
| `InjectSeo.TruncateIdempotent` | scripts/inject-seo.js:59-64 | truncating twice is truncating once |
| `InjectSeo.CloseFrom` | scripts/inject-seo.js:78-104 | the lazy `.*?` stops at the first closing tag, and without the dotAll form it never crosses a line end |
| `InjectSeo.Group` | scripts/inject-seo.js:78-104 | a group is found exactly when the element pattern matches somewhere, and without the dotAll form it holds no line end |
| `InjectSeo.ClassedOpenAt` | scripts/inject-seo.js:78-100 | a classed opening starts with `<tag` in any case and ends at its first `>` |
| `InjectSeo.LastSegment` | scripts/inject-seo.js:70 | the text after the last `/`, with none inside it |
| `InjectSeo.Basename` | scripts/inject-seo.js:70 | `path.basename` holds no `/` |
| `InjectSeo.BasenameExt` | scripts/inject-seo.js:118 | `path.basename(p, '.html')` holds no `/` |
| `InjectSeo.RelativeToSite` | scripts/inject-seo.js:97 | a path under `site/` is relative to it by dropping that prefix |
| `InjectSeo.TitleFromFallback` | scripts/inject-seo.js:70-75 | a file with a fallback title gets it, whatever its content |
| `InjectSeo.PlainHeading` | scripts/inject-seo.js:80-81 | a heading without tags or entities is only trimmed |
| `InjectSeo.TitleFromHeading` | scripts/inject-seo.js:77-82 | otherwise the `page-title` heading gives the title |
| `InjectSeo.TitleFromTitleTag` | scripts/inject-seo.js:84-88 | without one, the decoded, trimmed `<title>` text does |
| `InjectSeo.TitleDefault` | scripts/inject-seo.js:90 | without either, the title is `AVIR` |
| `InjectSeo.ExtractTitle` | scripts/inject-seo.js:69-91 | the page title; `TitleFromFallback`, `TitleFromHeading`, `TitleFromTitleTag` and `TitleDefault` state its four cases |
| `InjectSeo.Capitalise` | scripts/inject-seo.js:120 | the first character is upper-cased and the rest kept |
| `InjectSeo.CapitaliseAll` | scripts/inject-seo.js:120 | each word is capitalised |
| `InjectSeo.CapitaliseKeepsOutSpace` | scripts/inject-seo.js:120 | capitalising adds no space |
| `InjectSeo.CityNameWords` | scripts/inject-seo.js:118-121 | the city name's words are the capitalised `-`-separated parts of the base name |
| `InjectSeo.CleanDescription` | scripts/inject-seo.js:106-109 | the cleaned paragraph has no white space, zero-width space or no-break space at either end |
| `InjectSeo.ExtractDescription` | scripts/inject-seo.js:96-128 | a description is never empty |
| `InjectSeo.DescriptionFromParagraph` | scripts/inject-seo.js:100-113 | a rich-text paragraph longer than ten characters, cleaned and truncated, is the description, at most 155 characters |
| `InjectSeo.DescriptionForCity` | scripts/inject-seo.js:117-122 | otherwise a page under `site/city/` gets the city template with its name |
| `InjectSeo.DescriptionOtherwise` | scripts/inject-seo.js:123-127 | any other page gets the post template under `post/`, else the default description |
| `InjectSeo.CdnSrcAt` | scripts/inject-seo.js:134 | a match is `src="`, the CDN host in any case, non-quotes and a quote |
| `InjectSeo.CdnMatchesShaped` | scripts/inject-seo.js:134 | every match the global search returns has that shape |
| `InjectSeo.UrlOf` | scripts/inject-seo.js:137 | the URL taken from a match starts with the CDN host and has no quote after it |
| `InjectSeo.FirstUsable` | scripts/inject-seo.js:136-141 | the first URL that names no `.svg`, `logo` or `icon`, none before it usable |
| `InjectSeo.CdnImages` | scripts/inject-seo.js:134-137 | every candidate URL starts with the CDN host |
| `InjectSeo.ExtractImage` | scripts/inject-seo.js:133-144 | the image is the default or a usable CDN URL, and it is the first usable one whenever one exists |
| `InjectSeo.CanonicalUrl` | scripts/inject-seo.js:149-152 | the canonical URL starts with the base URL, holds no backslash, and for `site/rest` is `https://avir.com/rest` |
| `InjectSeo.CanonicalLineHasRel` | scripts/inject-seo.js:174 | the canonical line holds `rel="canonical"` |
| `InjectSeo.SeoTags` | scripts/inject-seo.js:164-176 | the tag block holds `rel="canonical"` and ends with the canonical line |
| `InjectSeo.PageTags` | scripts/inject-seo.js:217-229 | the tags built for a page hold `rel="canonical"` |
| `InjectSeo.IndexOf` | scripts/inject-seo.js:191 | `indexOf` gives -1 or a position where the text occurs |
| `InjectSeo.IndexOfMatch` | scripts/inject-seo.js:188-191 | `indexOf` of the matched viewport tag is the position of the match |
| `InjectSeo.TagRestCopy` | scripts/inject-seo.js:187 | the rest of a tag matches the same way in any text that starts like it |
| `InjectSeo.CiTagCopy` | scripts/inject-seo.js:187 | the viewport pattern matches the same way in any text that starts like the match |
| `InjectSeo.InjectBeforeViewport` | scripts/inject-seo.js:181-195 | with a viewport tag, the tags go right before it in the retitled page |
| `InjectSeo.InjectAfterTitle` | scripts/inject-seo.js:197-198 | otherwise they go after the first `</title>` in any case, after a newline |
| `InjectSeo.ViewportTagsPresent` | scripts/inject-seo.js:190-195 | the viewport insertion puts the tags in the page |
| `InjectSeo.TitleTagsPresent` | scripts/inject-seo.js:197-198 | so does the title insertion |
| `InjectSeo.InjectedTagsPresent` | scripts/inject-seo.js:181-199 | with either anchor the page receives the tags |
| `InjectSeo.ElementEndsInClose` | scripts/inject-seo.js:184 | a title element match holds a closing `</title>` |
| `InjectSeo.NoAnchorUnchanged` | scripts/inject-seo.js:181-199 | a page without `</title>` and without a viewport tag comes back unchanged |
| `InjectSeo.InjectSeoTags` | scripts/inject-seo.js:181-199 | the tags before the viewport tag, else after the first `</title>`; `InjectBeforeViewport`, `InjectAfterTitle`, `InjectedTagsPresent` and `NoAnchorUnchanged` state where they go |
| `InjectSeo.ExactTitleClose` | scripts/inject-seo.js:198 | an exact `</title>` is a match of the case-blind pattern |
| `InjectSeo.RetitledKeepsClose` | scripts/inject-seo.js:183-184 | replacing the title element keeps a `</title>` |
| `InjectSeo.TagsReachPage` | scripts/inject-seo.js:181-199 | a page with `</title>` receives the tags |
| `InjectSeo.InjectedPageHasSeo` | scripts/inject-seo.js:157-199 | injecting tags that hold a canonical link gives a page that has one |
| `InjectSeo.HasExistingSeo` | scripts/inject-seo.js:157-159 | the page holds `rel="canonical"`; `InjectedPageHasSeo`, `ProcessFile` and `RerunSkips` state that injected pages have it and are skipped |
| `InjectSeo.Tagged` | scripts/inject-seo.js:216-248 | a page without a canonical link is previewed exactly in a dry run and never skipped |
| `InjectSeo.ProcessFile` | scripts/inject-seo.js:204-249 | a page is skipped exactly when it has a canonical link, and previewed exactly when it has none and the run is dry |
| `InjectSeo.RerunSkips` | scripts/inject-seo.js:204-249 | a page with `</title>` is written, and a second run on the written page skips it |
| `InjectSeo.LastPath` | scripts/inject-seo.js:261-267 | the last argument not starting with `--`, every later one starting with it |
| `InjectSeo.ParseArgs` | scripts/inject-seo.js:258-267 | the flag is set exactly when `--dry-run` is an argument, and the path is the last other argument |
| `InjectSeo.Cli` | scripts/inject-seo.js:254-286 | usage exactly when no non-empty path is given; not found for a missing file; otherwise the file is processed with the flag |
| `RepairFooter.ScriptOf` | scripts/repair-footer.py:5-9 | a block script is the opening, the source, the type attribute and the closing tag, and its length is theirs |
| `RepairFooter.TagLength` | scripts/repair-footer.py:17-21 | a match of a removal pattern starts with `<script src="` and the pattern's path and is longer than that opening, and it fits in the text |
| `RepairFooter.RepairFooter` | scripts/repair-footer.py:12-28 | the function writes exactly `Repaired(content)`, and it returns True exactly when the cleaned text holds `</body>` |
| `RepairFooter.RepairedFiles` | scripts/repair-footer.py:30-35 | only `.html` files are written, and there are no more writes than files |
| `RepairFooter.RepairSite` | scripts/repair-footer.py:30-35 | the walk writes exactly `RepairedFiles(files)`, in order |
| `RepairFooter.WalkWrites` | scripts/repair-footer.py:30-35 | the writes of a walk for any per-file repair; `WalkWritesIff` states that a pair is written exactly when some `.html` file of the walk has that path and repairs to that text |
| `RepairFooter.RepairedFilesIff` | scripts/repair-footer.py:30-35 | a (path, text) pair is written exactly when some `.html` file of the walk has that path and its footer repair gives that text |
| `RepairFooter.Clean` | scripts/repair-footer.py:16-21 | the three removals in order; `CleanPage`, `BlockKeep` and `CleanOfRepaired` state what they keep |
| `RepairFooter.Repaired` | scripts/repair-footer.py:12-28 | the text written, or none without `</body>`; `RepairFooter`, `SingleBody`, `RepairedByClean`, `SecondRunSame` and `BlockScriptsOnce` state it |
| `RepairFooter.HitStep` | scripts/repair-footer.py:17-21 | a script whose source the pattern names is one match and is removed whole |
| `RepairFooter.SkipStep` | scripts/repair-footer.py:17-21 | a script whose source the pattern does not name is kept and the rest is processed on |
| `RepairFooter.Keep` | scripts/repair-footer.py:17-21 | the sources kept by a removal are exactly those the pattern does not name |
| `RepairFooter.PassOverScripts` | scripts/repair-footer.py:17-21 | one removal over a run of scripts keeps exactly the scripts it does not name |
| `RepairFooter.PrefixSkipped` | scripts/repair-footer.py:17-21 | text that holds no opening of the pattern is kept |
| `RepairFooter.TextUntouched` | scripts/repair-footer.py:17-21 | a removal leaves a text without its opening unchanged |
| `RepairFooter.PassOverPage` | scripts/repair-footer.py:17-21 | on a page of text, scripts and text, one removal keeps the text and the scripts it does not name |
| `RepairFooter.CleanPage` | scripts/repair-footer.py:16-21 | the three removals in order keep the text and the scripts none of them names |
| `RepairFooter.BlockScriptsMatch` | scripts/repair-footer.py:5-21 | the block's CDN jQuery is a whole match of the third pattern, and each of its four site chunks a whole match of the first |
| `RepairFooter.BlockSourceFacts` | scripts/repair-footer.py:5-21 | the block's sources are well formed, the first is the CDN jQuery, which only the third pattern names, and the other four are site chunks |
| `RepairFooter.BlockKeep` | scripts/repair-footer.py:5-21 | the three removals, one after the other, keep none of the block's five sources |
| `RepairFooter.CleanOfRepaired` | scripts/repair-footer.py:16-24 | when the text around the block holds no pattern opening, cleaning takes the inserted block out again and keeps everything else |
| `RepairFooter.SingleBody` | scripts/repair-footer.py:23-24 | with one `</body>`, the block goes right before it and nothing else changes |
| `RepairFooter.RepairedByClean` | scripts/repair-footer.py:12-28 | the repair depends on a page only through its cleaned text |
| `RepairFooter.SecondRunSame` | scripts/repair-footer.py:12-28 | with one `</body>` and no pattern opening left after cleaning, the repair writes, and repairing its output again yields the same text: the block is not duplicated |
| `RepairFooter.BlockDistinct` | scripts/repair-footer.py:5-9 | the five block sources are distinct |
| `RepairFooter.BlockScriptsOnce` | scripts/repair-footer.py:5-24 | under the same conditions, each of the five block scripts occurs in the written text exactly once, at its offset in the block right before `</body>` |
| `RepairFooter.BlockOffsets` | scripts/repair-footer.py:5-10 | inside a text followed by the block, the j-th block script starts at exactly one place: its offset in the block |
| `RepairHtml.CdnDirectory` | scripts/repair-html.py:38-42 | a match of `https://cdn.prod.website-files.com/([^/]+)/` covers the CDN root, at least one directory character and the closing `/`, and fits in the text |
| `RepairHtml.CdnDirectoryLeads` | scripts/repair-html.py:38-42 | every match of that pattern starts with the CDN root |
| `RepairHtml.DirectoryMatches` | scripts/repair-html.py:38-42 | for a non-empty directory without `/`, the match is exactly the root, the directory and its `/` |
| `RepairHtml.DirectoryLocalised` | scripts/repair-html.py:38-42 | such a URL prefix becomes `/images/<directory>_` and the rest of the text is processed on |
| `RepairHtml.SpecialDirectoriesAgree` | scripts/repair-html.py:24-42 | the general template gives the same result as the two fixed site and blog replacements, so they only fix the order |
| `RepairHtml.StylesheetLocalised` | scripts/repair-html.py:15-42 | a site stylesheet URL becomes `/css/` followed by the same path, and no later step touches it |
| `RepairHtml.StylesheetOrderMatters` | scripts/repair-html.py:15-42 | without the stylesheet step first, the general step would turn the same URL into an image path |
| `RepairHtml.LocaliseCdn` | scripts/repair-html.py:15-42 | steps 1 and 2 in order; `StylesheetLocalised`, `SpecialDirectoriesAgree`, `DirectoryLocalised` and `StylesheetOrderMatters` state them |
| `RepairHtml.SpacedAttribute` | scripts/repair-html.py:45-56 | a match of `\s+name="[^"]*"` fits in the text |
| `RepairHtml.BareCrossorigin` | scripts/repair-html.py:59-63 | a match of `\s+crossorigin` with its lookahead fits in the text |
| `RepairHtml.SpacedAttributeAt` | scripts/repair-html.py:45-56 | white space, the attribute opening, a value without `"` and the closing `"` are exactly one match |
| `RepairHtml.IntegrityDropped` | scripts/repair-html.py:44-49 | an `integrity="..."` attribute is removed together with the white space before it |
| `RepairHtml.CrossoriginDropped` | scripts/repair-html.py:51-56 | a `crossorigin="..."` attribute is removed together with the white space before it |
| `RepairHtml.BareCrossoriginDropped` | scripts/repair-html.py:58-63 | a bare `crossorigin` followed by white space, `>` or `/>` is removed, and that follower is kept |
| `RepairHtml.BareCrossoriginKept` | scripts/repair-html.py:58-63 | a bare `crossorigin` followed by anything else is not a match |
| `RepairHtml.DropIntegrity` | scripts/repair-html.py:44-63 | steps 3 and 4 in order; `IntegrityDropped`, `CrossoriginDropped`, `BareCrossoriginDropped` and `BareCrossoriginKept` state them |
| `RepairHtml.SlugAttribute` | scripts/repair-html.py:67 | a match of `data-wf-item-slug="([^"]+)"` holds a non-empty value and fits in the text |
| `RepairHtml.Capitalize` | scripts/repair-html.py:71 | capitalising a word keeps its length |
| `RepairHtml.LowerCapitalize` | scripts/repair-html.py:71 | capitalising a word changes only letter case |
| `RepairHtml.LowerJoinCapitalized` | scripts/repair-html.py:71 | joining capitalised words differs from joining the words only in letter case |
| `RepairHtml.JoinHyphensAsSpaces` | scripts/repair-html.py:71 | for words without `-`, joining by `-` then reading `-` as a space is joining by spaces |
| `RepairHtml.SlugTitleCaseless` | scripts/repair-html.py:71 | the title a slug spells is the slug with its hyphens as spaces, up to letter case |
| `RepairHtml.SlugTitleWords` | scripts/repair-html.py:71 | for a slug without spaces, the title's words are the slug's `-`-separated words, each capitalised |
| `RepairHtml.SlugAttributeLeads` | scripts/repair-html.py:67 | every slug match starts with `data-wf-item-slug="` |
| `RepairHtml.RetitleWithoutSlug` | scripts/repair-html.py:67-68 | a page without a slug attribute keeps its title |
| `RepairHtml.RetitleOnce` | scripts/repair-html.py:67-78 | on a page with a slug, its one generic `<title>AVIR</title>` becomes the title the first slug spells and nothing else changes |
| `RepairHtml.Retitle` | scripts/repair-html.py:65-78 | step 5; `RetitleWithoutSlug`, `RetitleOnce`, `SlugTitleWords` and `SlugTitleCaseless` state it |
| `RepairHtml.TitleElement` | scripts/repair-html.py:84 | a match of `<title>[^<]+</title>` holds at least one title character and fits in the text |
| `RepairHtml.DescriptionTag` | scripts/repair-html.py:101 | a match of the description meta pattern fits in the text |
| `RepairHtml.TitleElementLeads` | scripts/repair-html.py:84 | every title match starts with `<title>` |
| `RepairHtml.TitleElementMatches` | scripts/repair-html.py:84 | a title element whose text is non-empty and free of `<` is exactly one match |
| `RepairHtml.FirstTitleIs` | scripts/repair-html.py:84-86 | when no `<title>` comes before it, that element's text is the title the script takes, and nothing before it matches |
| `RepairHtml.DescriptionAdded` | scripts/repair-html.py:80-92 | on a page with one title and no description, the description meta carrying the title goes right after the title element and nothing else changes |
| `RepairHtml.AddDescriptionIdempotent` | scripts/repair-html.py:80-92 | adding the description twice is adding it once |
| `RepairHtml.AddOgTitleIdempotent` | scripts/repair-html.py:94-104 | adding og:title twice is adding it once |
| `RepairHtml.AddDescription` | scripts/repair-html.py:80-92 | step 6; `DescriptionAdded` and `AddDescriptionIdempotent` state it |
| `RepairHtml.OgTitleAdded` | scripts/repair-html.py:94-104 | on a page with one title, one description meta and no og:title, the og:title meta carrying the title goes right after the description meta and nothing else changes |
| `RepairHtml.OgTitleKept` | scripts/repair-html.py:95 | a page that already holds `property="og:title"` is left as it is |
| `RepairHtml.AddOgTitle` | scripts/repair-html.py:94-104 | step 7; `OgTitleAdded`, `OgTitleKept` and `AddOgTitleIdempotent` state it |
| `RepairHtml.MetasAdded` | scripts/repair-html.py:80-104 | on a page with one title and neither meta, steps 6 and 7 put the description and then the og:title right after the title, both carrying its text, and nothing else changes |
| `RepairHtml.ApexLinkOnce` | scripts/repair-html.py:106-111 | a page's one `href="https://www.avir.com/` becomes the apex host's and nothing else changes |
| `RepairHtml.ApexLinks` | scripts/repair-html.py:106-111 | step 8; `ApexLinkOnce` states it |
| `RepairHtml.RepairedAddsMetas` | scripts/repair-html.py:12-113 | a page that after step 5 has one title and neither meta comes out with both metas after the title, with step 8 applied to the result |
| `RepairHtml.Repaired` | scripts/repair-html.py:12-113 | the eight steps in order; `RepairHtml` computes it, and `RepairedAddsMetas` states it for a page with one title and neither meta |
| `RepairHtml.RepairHtml` | scripts/repair-html.py:12-113 | the function applies the eight steps in the script's order |
| `RepairHtmlHeads.CanonicalLink` | scripts/repair-html-heads.py:58 | a match of group 1, `<link rel="canonical" href="[^"]*"/>`, fits in the text |
| `RepairHtmlHeads.CanonicalMatch` | scripts/repair-html-heads.py:58 | the whole pattern matches exactly where its group does, and covers the group and then no more than the text |
| `RepairHtmlHeads.LinkRepair` | scripts/repair-html-heads.py:60-68 | the rewrite at a canonical match holds the whole block |
| `RepairHtmlHeads.RepairAtLink` | scripts/repair-html-heads.py:56-68 | when the pattern is found, repair_html rewrites the leftmost match, and only it |
| `RepairHtmlHeads.ProcessWith` | scripts/repair-html-heads.py:88-118 | a file counted as modified has no error, and a file that cannot be read gives the read's message and no modification |
| `RepairHtmlHeads.OutcomesOf` | scripts/repair-html-heads.py:157-159 | the loop produces one outcome per file |
| `RepairHtmlHeads.CountTally` | scripts/repair-html-heads.py:153-170 | no counter exceeds the number of files |
| `RepairHtmlHeads.WalkStep` | scripts/repair-html-heads.py:157-170 | each further file adds its own outcome and its own write, if any, after those of the files before it |
| `RepairHtmlHeads.CountStep` | scripts/repair-html-heads.py:161-170 | each outcome adds one to exactly the counter it is classed under |
| `RepairHtmlHeads.RepairSite` | scripts/repair-html-heads.py:139-184 | without a site directory the exit code is 1 and nothing is done; otherwise the three counters are the tallies of the outcomes, the writes are those of the files in order, and the exit code is 0 exactly when no error was counted |
| `RepairHtmlHeads.BlockMarkers` | scripts/repair-html-heads.py:21-43 | HEAD_TAGS_BLOCK carries both the viewport marker and the CSS path needs_repair looks for |
| `RepairHtmlHeads.CanonicalShape` | scripts/repair-html-heads.py:58 | a match is the canonical link followed by all the white space after it |
| `RepairHtmlHeads.CanonicalAnchor` | scripts/repair-html-heads.py:58-60 | at the place found, the text holds the canonical link, then white space up to the first other character |
| `RepairHtmlHeads.CanonicalLeftmost` | scripts/repair-html-heads.py:60 | no canonical match starts before the place found |
| `RepairHtmlHeads.InsertedBeforeRule` | scripts/repair-html-heads.py:70-82 | without a canonical link, the block and a newline go in just before the first `.page-content` rule and nothing else changes |
| `RepairHtmlHeads.RepairCases` | scripts/repair-html-heads.py:46-85 | with either anchor the result holds the block; with neither the text comes back unchanged |
| `RepairHtmlHeads.HoldsBlockAfterCanonical` | scripts/repair-html-heads.py:56-68 | after the canonical-link insertion the text holds the block |
| `RepairHtmlHeads.HoldsBlockBeforeRule` | scripts/repair-html-heads.py:70-82 | after the page-content insertion the text holds the block |
| `RepairHtmlHeads.RepairedNeedsNoRepair` | scripts/repair-html-heads.py:34-85 | a repaired text no longer needs repair |
| `RepairHtmlHeads.NeedsRepair` | scripts/repair-html-heads.py:34-43 | the viewport marker or the stylesheet path is missing; `BlockMarkers` and `RepairedNeedsNoRepair` state that a repaired text no longer needs repair |
| `RepairHtmlHeads.Repair` | scripts/repair-html-heads.py:46-85 | repair_html with HEAD_TAGS_BLOCK; `RepairCases`, `InsertedBeforeRule`, `RepairAtLink` and `RepairedNeedsNoRepair` state it |
| `RepairHtmlHeads.ProcessOutcomes` | scripts/repair-html-heads.py:95-115 | a complete file is skipped, a file without anchor gets the insertion-point error, a repairable file is modified unless its write fails, and the file is written back exactly when it needs repair, has an anchor, the run is not a dry-run and the write succeeds |
| `RepairHtmlHeads.RerunIsNoOp` | scripts/repair-html-heads.py:88-118 | for any block with both markers, a file the script wrote is skipped on the next run and not written again |
| `RepairHtmlHeads.RerunSkips` | scripts/repair-html-heads.py:88-118 | the same holds for the script's own block |
| `RepairHtmlHeads.ProcessFile` | scripts/repair-html-heads.py:88-118 | process_file with HEAD_TAGS_BLOCK; `ProcessWith`, `ProcessOutcomes` and `RerunSkips` state its outcomes |
| `RepairHtmlHeads.TalliesPartition` | scripts/repair-html-heads.py:161-170 | every file is counted as modified, skipped or errored, exactly once |
| `RepairHtmlHeads.NoErrorsIff` | scripts/repair-html-heads.py:161-184 | the error count is zero exactly when no outcome is classed as an error |
| `VerifyAll.BatchSize` | verify-all.js:13 | a batch always holds at least one page |
| `VerifyAll.ReadPaths` | verify-all.js:8 | the page list has at least one entry, no entry holds a newline, and joining the entries by newlines gives back the trimmed file |
| `VerifyAll.ReadPathsEmpty` | verify-all.js:8 | an empty paths file still yields one, empty, path |
| `VerifyAll.IndexSuffixIsHtmlSuffix` | verify-all.js:51-55 | the `index.html` branch is taken only for paths the `.html` branch would also take, so its order matters |
| `VerifyAll.UrlPath` | verify-all.js:49-55 | a path that does not end in `.html` is kept; a trailing `/index.html` becomes `/`; any other trailing `.html` is dropped |
| `VerifyAll.DirectoryIndex` | verify-all.js:51-52 | when the first `/index.html` ends the path, replacing it with `/` keeps the directory and its slash |
| `VerifyAll.UrlPathBareIndex` | verify-all.js:51-52 | a bare `index.html` has no `/index.html` to replace and is kept |
| `VerifyAll.LengthRule` | verify-all.js:89-93 | the floating-point test "length difference over origin length above 0.3" holds exactly when ten times the difference exceeds three times the origin length, including an empty origin page |
| `VerifyAll.VerifyPath` | verify-all.js:48-98 | ERROR exactly when a fetch failed with a non-empty message; SKIP exactly when the origin is not 200 and the mirror has the same status; FAIL exactly on a status mismatch, a mirror that is not 200, or a title mismatch; otherwise WARN exactly when the lengths differ by more than 30% and PASS exactly when they do not |
| `VerifyAll.StatusOf` | verify-all.js:69-81 | `result.status`, undefined on a failed fetch; `VerifyPath` states the statuses that follow from it |
| `VerifyAll.CheckPath` | verify-all.js:48-63 | the content check of one path from the origin and mirror fetches; `VerifyPath` states its status, and `CheckBatch` and `RunContent` collect it |
| `VerifyAll.SanitizeFilename` | verify-all.js:100-102 | the name holds no `/`; it is the path with every `/` turned into `-`, less one leading `/` or `-` |
| `VerifyAll.SanitizeCollides` | verify-all.js:100-102 | two distinct paths can get the same screenshot name |
| `VerifyAll.RowsIsProduct` | verify-all.js:206-208 | the rows before row y of a w-pixel RGBA image take `y * w * 4` bytes |
| `VerifyAll.PixelInRow` | verify-all.js:206-213 | the index `(y * width + x) * 4 + c` lies inside row y |
| `VerifyAll.ImageRows` | verify-all.js:188-192 | a decoded image holds exactly height rows of width pixels of four bytes |
| `VerifyAll.CropOf` | verify-all.js:201-220 | the top-left w x h region has `w * h * 4` bytes |
| `VerifyAll.Cropped` | verify-all.js:191-224 | the crop of a decoded image to the shared size has `w * h * 4` bytes |
| `VerifyAll.CropPixel` | verify-all.js:204-218 | each byte of the crop is the same channel of the same pixel in the source image |
| `VerifyAll.CropFull` | verify-all.js:194-198 | cropping to the image's own size reproduces its data |
| `VerifyAll.Crop` | verify-all.js:201-224 | the nested copy loop fills a new buffer of `w * h * 4` bytes with exactly the crop |
| `VerifyAll.CopyRow` | verify-all.js:205-218 | copying one row sets the row's bytes from the source row and keeps every byte before it |
| `VerifyAll.VisualStatus` | verify-all.js:226-246 | FAIL exactly when more than 1% of the pixels differ, PASS otherwise, including for an empty image |
| `VerifyAll.PercentRule` | verify-all.js:228-231 | the floating-point test "percentage above 1.0" holds exactly when a hundred times the differing pixels exceed the total |
| `VerifyAll.VisualOutcome` | verify-all.js:113-255 | ERROR with the message exactly when capturing threw; otherwise the compared size is the smaller width and height, a dimension note exactly when the sizes differ, FAIL exactly when more than 1% differ, PASS otherwise, and a diff image written exactly on FAIL |
| `VerifyAll.SameSizeNeedsNoCrop` | verify-all.js:194-198 | when the sizes agree, the uncropped data is exactly what the crop would give |
| `VerifyAll.VisualVerifyPath` | verify-all.js:113-255 | the check of one page computes exactly VisualOutcome |
| `VerifyAll.CheckBatch` | verify-all.js:316-318 | one batch yields one content result per path, in the batch's order |
| `VerifyAll.RunContent` | verify-all.js:312-327 | content mode yields the check of every path in order, in as many batches of ten as the paths need |
| `VerifyAll.VisualBatch` | verify-all.js:272-287 | one visual batch yields the outcome of each of its paths, in order |
| `VerifyAll.RunVisual` | verify-all.js:269-292 | visual mode yields the outcome of every path in order, in as many batches of three as the paths need |
| `VerifyAll.Count` | verify-all.js:329-331 | a filtered count never exceeds the number of results |
| `VerifyAll.CountPositive` | verify-all.js:309 | a count is positive exactly when some result has that status |
| `VerifyAll.CountsPartition` | verify-all.js:329-337 | the five status counts add up to the total |
| `VerifyAll.Statuses` | verify-all.js:329-331 | the statuses are those of the results, one for one |
| `VerifyAll.VisualStatuses` | verify-all.js:296-298 | the visual statuses are those of the results, one for one |
| `VerifyAll.VisualStatusOf` | verify-all.js:226-253 | the status of a visual result, ERROR when capturing threw; `VisualOutcome`, `VisualStatuses` and `VisualStatusesOnly` state it |
| `VerifyAll.ContentExitCode` | verify-all.js:339 | content mode exits with 1 exactly when some page failed; errors, warnings and skips alone exit with 0 |
| `VerifyAll.VisualExitCode` | verify-all.js:309 | visual mode exits with 1 exactly when some page failed or errored |
| `VerifyAll.VisualStatusesOnly` | verify-all.js:226-254 | a visual run never reports WARN or SKIP |
| `VisualAudit.TestSite` | scripts/visual-audit-v2.js:25 | the audited site is the environment variable when it is set and non-empty, and production otherwise |
| `VisualAudit.AuditUrlPath` | scripts/visual-audit-v2.js:197 | empty for `index.html`; otherwise a `/` followed by the path, less its `.html` when that ends the path and occurs nowhere before |
| `VisualAudit.ScreenshotFilename` | scripts/visual-audit-v2.js:139 | the name is the path with every `/` turned into `_`, followed by `.png`, and holds no `/` |
| `VisualAudit.FullPageScroll` | scripts/visual-audit-v2.js:123-133 | the positions are 0, 500, 1000, ... as long as they do not exceed scrollHeight less innerHeight, the next one would, and the page ends scrolled back to 0 |
| `VisualAudit.ScrollCount` | scripts/visual-audit-v2.js:128 | the loop visits floor(max / 500) + 1 positions, and none when the page is shorter than the viewport |
| `VisualAudit.BlankIffTrimEmpty` | scripts/visual-audit-v2.js:158 | the trimmed inner HTML is empty exactly when every character is white space |
| `VisualAudit.FormIssues` | scripts/visual-audit-v2.js:148-163 | there are no more records than forms |
| `VisualAudit.CheckForms` | scripts/visual-audit-v2.js:148-163 | the loop records, in order, each form with raw Webflow markup, a short post form or blank markup, with its raw flag and length |
| `VisualAudit.NoIssuesIffClean` | scripts/visual-audit-v2.js:152-162 | no record is made exactly when no form has an issue |
| `VisualAudit.IssuesDescribeForms` | scripts/visual-audit-v2.js:152-162 | every record describes a form of the page that has an issue |
| `VisualAudit.NonBlank` | scripts/visual-audit-v2.js:243 | the pages are exactly the lines whose trimmed text is not empty, kept as they are |
| `VisualAudit.AuditListTrailingNewline` | scripts/visual-audit-v2.js:243 | a trailing newline in the paths file adds no page |
| `VisualAudit.AuditList` | scripts/visual-audit-v2.js:243 | the non-blank lines of the paths file; `NonBlank` and `AuditListTrailingNewline` state which lines are pages |
| `VisualAudit.SplitAppendSeparator` | scripts/visual-audit-v2.js:243 | splitting a text with a trailing newline adds one empty line |
| `VisualAudit.NonBlankAppendEmpty` | scripts/visual-audit-v2.js:243 | an empty line adds no page |
| `VisualAudit.PageArg` | scripts/visual-audit-v2.js:304 | no page argument exactly when no argument starts with `--page=`; otherwise the value after `--page=` of the first such argument |
| `VisualAudit.PageArgForms` | scripts/visual-audit-v2.js:304-313 | `--page=` alone gives an empty value and `--page index` gives none, and both run the full audit |
| `VisualAudit.PageArgFirst` | scripts/visual-audit-v2.js:304 | the value is that of the first argument that starts with `--page=` |
| `VisualAudit.AuditTargets` | scripts/visual-audit-v2.js:309-313 | the pages a run audits: the `--page=` value when non-empty, else the listed pages, else none; `TargetsOfPageArg` and `Start` state it |
| `VisualAudit.TargetsOfPageArg` | scripts/visual-audit-v2.js:304-310 | a non-empty value in the first `--page=` argument is the only page audited, whatever the paths file lists |
| `VisualAudit.AuditRun.constructor` | scripts/visual-audit-v2.js:42-55 | the run starts with no browser, no current page, nothing audited and nothing recorded |
| `VisualAudit.AuditRun.InitBrowser` | scripts/visual-audit-v2.js:60-66 | an open browser is closed first, then one more browser is launched and open; nothing else changes |
| `VisualAudit.AuditRun.AuditPage` | scripts/visual-audit-v2.js:192-232 | the page becomes the current page; success counts it, adds its screenshot and its form-issue entry, if any, and logs no error; failure logs exactly one error for it, counts nothing, and relaunches the browser exactly when the message says the browser was closed |
| `VisualAudit.AuditRun.RecordAudited` | scripts/visual-audit-v2.js:203-220 | a successful page adds one to the count, its screenshot and its form-issue entry, and leaves the browser and the errors alone |
| `VisualAudit.AuditRun.RecordFailed` | scripts/visual-audit-v2.js:222-230 | a failed page appends exactly one `{page, error}` record and relaunches the browser only on the crash message |
| `VisualAudit.AuditRun.RunAudit` | scripts/visual-audit-v2.js:237-252 | a missing paths file audits nothing; otherwise every listed page is audited in order, once: the count grows by the successes, the errors by the failures, and the screenshots and form issues by those of the audited pages, in order |
| `VisualAudit.AuditRun.Start` | scripts/visual-audit-v2.js:302-322 | the browser is launched first; a non-empty `--page=` value audits exactly that page, otherwise the listed pages are audited as in `RunAudit`; the report is written exactly when no non-empty `--page=` value was given |
| `VisualAudit.FindingsOf` | scripts/visual-audit-v2.js:206-210 | a page gets at most one form-issue entry, with its own name and a count between one and its number of forms |
| `VisualAudit.FindingIffIssue` | scripts/visual-audit-v2.js:206-210 | a page gets an entry exactly when one of its forms has an issue |
| `VisualAudit.CountSucceeded` | scripts/visual-audit-v2.js:220 | the successes never exceed the pages |
| `VisualAudit.FailuresOf` | scripts/visual-audit-v2.js:224 | every logged error names a listed page whose audit failed |
| `VisualAudit.AuditStep` | scripts/visual-audit-v2.js:247-249 | each further page adds one to the count or one error, after those of the pages before it |
| `VisualAudit.SucceededPlusFailed` | scripts/visual-audit-v2.js:220-224 | every listed page is either counted as audited or logged as an error |
| `VisualAudit.ScreenshotsOf` | scripts/visual-audit-v2.js:203 | one screenshot per audited page, in order, as many as the successes |
| `VisualAudit.ScreenshotIffAudited` | scripts/visual-audit-v2.js:203-222 | when distinct pages have distinct screenshot names, a page's screenshot is taken exactly when the page is listed and its audit succeeded |
| `VisualAudit.FindingsAll` | scripts/visual-audit-v2.js:206-210 | no more form-issue entries than successes, each naming a listed, audited page with a positive count |

## Left out

- File-system, network and browser I/O: directory walks, globs, reads and writes, downloads, HTTP fetches, Playwright and Crawlee. Their results are parameters, and console output and logging are not modelled.
- The perceptual metric of pixelmatch (verify-all.js:227, scripts/e2e/e2e-crawler.js:205-212) is a foreign library. The differing-pixel count is an input.
- The canvas scaling in scripts/e2e/e2e-crawler.js:197-201 resamples floating-point pixels. Only the compared size is modelled.
- JavaScript numbers are exact rationals plus NaN and the infinities. Rounding to doubles at a threshold boundary is not modelled, nor are `toFixed` and the other number formatting.
- scripts/e2e/e2e-crawler.js:217-221 declares `totalPixels` and `diffPercentage` twice as `const` in one scope, which JavaScript rejects when it parses the file. The model takes the single computation the lines intend.
- Clocks and timing are not modelled: `Date.now`, timestamps, the crawl's load time and the crawl result's `passed` flag, which depends on load time.
- The bodies of the HTML and Markdown reports (scripts/e2e/e2e-crawler.js:302-449, scripts/visual-audit-v2.js:257-291) are not modelled. The model keeps the counts, the status labels and whether the report is written.
- The audit's console and response listeners (scripts/visual-audit-v2.js:69-91) assign asynchronous events to the current page. They are not modelled.
- `testLinks` (scripts/visual-audit-v2.js:168-187) is never called, so it is not modelled. Neither are directory creation and the final `cleanup`.
- VisualAudit.AuditRun.AuditPage: every failure is taken to happen before the form check. A failure while writing the form evidence file (scripts/visual-audit-v2.js:213-216) comes after the form-issue entry is recorded, and the model does not tell it apart.
- The `main` of scripts/fix-html-files.py (directory walk and `modified_count`) is not modelled. `fix_html_file` is modelled for one file.
- The long literal markup that scripts/fix-html-files.py inserts is a `Templates` parameter: the fonts link, the jQuery tag and the transition script. Its properties are proved for any templates that carry the markers they need.
- Reading with `errors='ignore'` and other decoding questions are not modelled. A file's text is the characters as read.
- Backslash escapes in Python `re.sub` templates that splice in page text (scripts/repair-html.py:90, 102) are not expanded. Neither are `$` patterns in JavaScript replacement strings. The model inserts the text literally, which differs for a title that holds `\` or `$`.
- Case mapping (`lower`, `capitalize`, `toUpperCase`, the `i` flag) is modelled on ASCII letters only.
- JavaScript string lengths count UTF-16 code units, but the model counts characters. This differs only for characters outside the Basic Multilingual Plane.
- The order among equally long URLs under `sorted(key=len, reverse=True)` (scripts/download-cdn-images.py:69) is an input. The properties hold for every longest-first order.
- Node's `path.relative` and `path.basename` are modelled for paths under `site/` without `.` or `..` segments. Absolute, non-normalised and slash-only paths, and the working directory, are left out.
- Own keys of the `titleFallbacks` object are modelled, but inherited keys such as `constructor` are not.
- E2ECrawler.Pathname: stated for the empty path and for plain paths only. `new URL` percent-encodes spaces, quotes and non-ASCII characters, turns `\` into `/`, ends the path at `?` or `#`, and resolves `.` and `..` segments; manifest paths that need any of these are not modelled.
- E2ECrawler.HandlerAndComparatorNames: stated for the same paths as `Pathname`. For a path the URL parser rewrites, the handler's and the comparator's names can differ further.
- The dry-run preview lines of scripts/inject-seo.js are not modelled. The model records only that the page was previewed.
- InjectSeo.ClassedOpenAt: the `h1` and `div` openings end at their first `>`. The script's pattern could also pass a `>` inside a quoted class value.
- InjectSeo.UrlOf: the no-quote clause is stated for the part of the URL after the CDN host.
- VerifyAll.UrlPath: the contract fixes the result only when the first `/index.html` or `.html` is the one that ends the path. The body models the first-occurrence replacement in every case.
- VisualAudit.AuditUrlPath: likewise, the contract fixes the result only when the first `.html` ends the path.
- RepairHtml.DirectoryLocalised: the rewrite is stated one CDN prefix at a time. That no `https://cdn.prod.website-files.com/<segment>/` is left anywhere in the page is not proved.
- RepairHtml.IntegrityDropped: the removal is stated for one attribute at the front of the text. That none is left anywhere in the page is not proved.
- RepairHtml.CrossoriginDropped: the same, for valued `crossorigin` attributes.
- RepairHtml.BareCrossoriginDropped: the same, for bare `crossorigin` attributes.
- RepairFooter.CleanPage: the removals are stated for a page whose text around its scripts holds no opening of a removal pattern. One pass of `re.sub` can form a new tag out of the pieces around a removed one, so "every such tag is gone" is not claimed in general.
- The `main` of scripts/repair-html-heads.py handles arguments and printing, which are not modelled. The sorted file list from `find_html_files` is an input.
- The command-line handling of scripts/repair-html.py is not modelled.
- Screenshot and JSON result writes in verify-all.js are not modelled, nor are its directory creation, style injection and CAPTCHA masking.

## Findings

| source | as written | input that shows it | evidently intended | confidence | as-written member | corrected member |
|---|---|---|---|---|---|---|
| scripts/download-cdn-images.py:61 | the template always writes a double quote after `=`, whatever quote opened the value | `src='images/a.png'` becomes `src="/images/a.png'` | keep the opening quote, giving `src='/images/a.png'` | not executed | `DownloadCdnImages.AttributeQuoteMismatch` | `DownloadCdnImages.AttributeQuoteKept` |
| scripts/download-cdn-images.py:62 | the optional quote is dropped and a double quote always written | `url(images/a.png)` becomes `url("/images/a.png)` | write back the quote that was found, if any | not executed | `DownloadCdnImages.UrlQuoteUnclosed` | `DownloadCdnImages.UrlQuoteKept` |

`UpdateFile` and `Updated` follow lines 61-62 as written. `UpdatedIntended` is the same file update built on the corrected `FixRelative`.
