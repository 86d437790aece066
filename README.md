# douyin-collect, modelled in Dafny

douyin-collect is a set of three Node.js scripts for collecting short videos:

- `getter-url.js` reads a saved HTML page, takes every `li.YGmRi0kR` list item, and writes a JSON list of `{url, text}` records. The url is the item's link with its first `//` removed; the text is the item's trimmed title. Both must be non-empty.
- `revert.js` reverses such a JSON array in place and writes it back.
- `index.js` visits each record's page with a headless browser, emulating a random phone and pausing for a random time, waits up to 10 s for the page's `#video-player` and reads its media descriptor `{videoSrc, userAgent}`. A plain `video` element is read only when the player appeared but is gone again by the time of that read; a page with no player at all yields null. It then streams the video to `videos/<sanitized title>.mp4`, unless that file already exists, and pauses 30–35 s before the next record.

The model keeps the decisions and leaves the environment out:

- The browser and the network are replaced by injected outcomes: `PageSession`, `Probe` and `Transfer` say what each await did.
- Each `Math.random()` draw is a `Fraction` in [0, 1).
- The `videos/` directory is a set of file names held by a `VideoStore` object.
- The JavaScript string operations (`trim`, `startsWith`, `replace` with a string pattern) are written out over `seq<char>` in `JsText`.

Modules, one per concern:

| file | module | models |
|---|---|---|
| wrappers.dfy | Wrappers | `Option` |
| js_text.dfy | JsText | `String.prototype.trim`, `startsWith`, `indexOf`, first-occurrence `replace` |
| naming.dfy | Naming | `sanitizeFileName`, the target name, the address rule, the random draws |
| extractor.dfy | Extractor | getter-url.js |
| reverser.dfy | Reverser | revert.js |
| acquirer.dfy | Acquirer | `getVideoUrl`, `downloadVideo` and `main` of index.js |

Line 111 of `getVideoUrl` (and line 163 in its catch) reads `pageUrl`, which nothing declares. So the function, as written, always rejects and the downloader saves nothing (see Findings). The model keeps both readings:

- `UrlRef.Undeclared` is the code as written.
- `UrlRef.Param` is the evident intent, `url`. `GetVideoUrl` and the imperative `ProcessItems` use this one.

## Model

| member | source | states |
|---|---|---|
| JsText.Trim | index.js:65 | the trimmed string is the slice right after the leading white space; only white space follows it; it has no white space at either end |
| JsText.TrimKeepsTrimmed | index.js:65 | a string with no white space at either end is unchanged by `trim` |
| JsText.TrimIdempotent | getter-url.js:26 | trimming twice equals trimming once |
| JsText.IndexOfFrom | getter-url.js:23 | `indexOf` from a position finds the first occurrence at or after it, and None exactly when there is none |
| JsText.ReplaceFirst | getter-url.js:23 | `replace` with a string pattern returns the string unchanged when the pattern is absent, and otherwise one of length `|s| - |pat| + |rep|` |
| JsText.ReplaceFirstSpec | getter-url.js:23 | `replace` with a string pattern changes nothing when the pattern is absent, and otherwise replaces its first occurrence only |
| Naming.ReplaceIllegal | index.js:65 | the regex replacement keeps the length and maps each character to `_` exactly when it is one of `<>:"/\|?*` |
| Naming.SanitizeFileName | index.js:64-66 | the sanitized name has no illegal character, no white space at either end, and is no longer than the title |
| Naming.SanitizeIsReplacedSlice | index.js:65 | the sanitized name is the replaced title with the outer white space cut off, character by character |
| Naming.SanitizeTrimsOnlyWhiteSpace | index.js:65 | everything cut off at either end was white space in the title itself |
| Naming.ReplaceKeepsLegal | index.js:65 | the replacement leaves a legal string unchanged |
| Naming.SanitizeIdempotent | index.js:64-66 | sanitizing twice equals sanitizing once |
| Naming.SanitizeExample | index.js:64-66 | `A/B:C` becomes `A_B_C` |
| Naming.TargetName | index.js:183 | the target file name is legal, ends in `.mp4`, and is the sanitized title before that suffix |
| Naming.TargetNameCollision | index.js:183-189 | two titles share a target file (so the second is skipped) exactly when they sanitize to the same name |
| Naming.FullUrl | index.js:111 | the address starts with `http`; one that already does is kept, any other gets `https://` in front |
| Naming.FullUrlIdempotent | index.js:111 | the rule never adds the prefix twice |
| Naming.FullUrlExample | index.js:111 | `www.x.com/v` becomes `https://www.x.com/v`; `http://x` is kept |
| Naming.DeviceIndex | index.js:106 | the drawn device index is always inside the 15-entry catalog |
| Naming.DeviceIndexCovers | index.js:106 | every device of the catalog can be drawn |
| Naming.PageWaitMs | index.js:119 | the pause after navigation is 2000 to 4999 ms |
| Naming.PageWaitCovers | index.js:119 | every value from 2000 to 4999 can be drawn |
| Naming.InterItemDelayMs | index.js:296 | the pause between items is 30000 to 34999 ms |
| Naming.InterItemDelayCovers | index.js:296 | every value from 30000 to 34999 can be drawn |
| Extractor.UrlOf | getter-url.js:23 | a missing link gives `""`; a link starting with `//` loses exactly those two characters; a link without `//` is kept; one with `//` anywhere is two characters shorter; the url is empty exactly when the link is missing, empty or just `//` |
| Extractor.Drafts | getter-url.js:19-28 | one draft per list item, in order; every title has no white space at either end; a draft passes the test of line 28 exactly when its item has a link other than `""` and `//` and a title that is not all white space |
| Extractor.KeepComplete | getter-url.js:28-33 | every kept record is one of the drafts and has a non-empty url and text; there are never more records than drafts |
| Extractor.KeepCompleteIsOrderedFilter | getter-url.js:28-33 | the kept records are exactly the complete drafts, in their original order |
| Extractor.Extracted | getter-url.js:19-34 | at most one record per list item; each has a non-empty url and a non-empty trimmed title |
| Extractor.ExtractedFollowsCandidates | getter-url.js:19-34 | record k comes from the k-th list item that passes the test of line 28, and every item that passes is kept |
| Extractor.MissingHrefDropped | getter-url.js:23-28 | an item without a link gets the empty url and is dropped |
| Extractor.UrlOfExample | getter-url.js:23 | `//example.com/a` is stored as `example.com/a` |
| Extractor.UrlOfAbsoluteExample | getter-url.js:23 | an absolute `https://a//b` is stored as `https:a//b`: the first `//`, wherever it is, goes |
| Extractor.CollectLinks | getter-url.js:19-34 | the `.each` loop pushes exactly the extracted records |
| Extractor.ExtractLinks | getter-url.js:12-43 | the output file is written, with the extracted records, exactly when the page could be read |
| Reverser.Reverse | revert.js:20 | the reversal has the length of the original |
| Reverser.ReverseAt | revert.js:20 | element k of the reversal is element n-1-k of the original |
| Reverser.ReverseInvolution | revert.js:20 | reversing twice restores the original |
| Reverser.ReversePermutes | revert.js:20 | the reversal is a permutation of the original |
| Reverser.ReverseExample | revert.js:20 | `[1, 2, 3]` becomes `[3, 2, 1]` |
| Reverser.ReverseInPlace | revert.js:20 | `reverse()` leaves the array holding the reversal of its old contents, a permutation of them |
| Reverser.RevertFile | revert.js:12-26 | with an array, the array itself is reversed and written back, and both logged lengths are the original length; anything else writes nothing |
| Acquirer.TryBlock | index.js:72-159 | the try block never completes with null; it returns a descriptor exactly when the set-up accepts the raw address, the address can be evaluated, `#video-player` appears at the full address and a page script gives a descriptor (the player's first); otherwise it throws |
| Acquirer.CatchBlock | index.js:161-164 | the catch never finds a descriptor; it returns null exactly when the address can be evaluated again, and otherwise throws |
| Acquirer.GetVideoUrlVia | index.js:69-168 | a descriptor exactly when the page opens and closes and the try block finds one; null exactly when the page opens and closes, the try block throws and the catch survives; otherwise it rejects |
| Acquirer.GetVideoUrl | index.js:69-168 | with `url`, `getVideoUrl` rejects exactly when the page cannot be opened or closed; it returns a descriptor exactly when the set-up accepts the raw address (line 76), `#video-player` appears at the full address (line 124) and a page script gives a descriptor, the player's first; null otherwise |
| Acquirer.NoPlayerGivesNull | index.js:124 | a page without `#video-player` gives null, even when it has a `video` element with a source |
| Acquirer.RawAddressRejectedGivesNull | index.js:76 | when the navigation to the raw address fails, `getVideoUrl` gives null before any prefix rule is used |
| Acquirer.AsWrittenAlwaysRejects | index.js:111 | as written, `getVideoUrl` rejects whatever the browser does |
| Acquirer.Download | index.js:171-242 | `downloadVideo` skips without change exactly when the target exists; saves exactly when the stream finishes, adding the target; never adds any other file |
| Acquirer.VideoStore.DownloadVideo | index.js:171-242 | the store's new file set and the result are those of `Download` on the old set and the target name of the title |
| Acquirer.ReportOf | index.js:278-302 | an item fails exactly when the lookup rejects or the writer fails; a pause follows exactly when a next item exists and the item did not fail; a request was issued, with the found descriptor, exactly when a download got past the existence test; the status is downloaded exactly when the file was saved |
| Acquirer.ItemStep | index.js:278-302 | one item leaves the old files in place and can add only its own target; an item reported as downloaded or already present has its target in the files |
| Acquirer.ItemStepFacts | index.js:276-303 | per item: a pause exactly when a next item exists and no exception was raised; a request, carrying the found descriptor, exactly when a non-empty source was found and the target is missing; downloaded exactly when in addition the transfer finishes; already present exactly when a source was found and the target exists; without a source no request, no file change and a no-source or error status |
| Acquirer.RunPrefix | index.js:272-304 | the loop leaves one report per item handled |
| Acquirer.Run | index.js:251-268 | nothing is processed when the browser does not launch or the list is empty; otherwise one report per item |
| Acquirer.ProcessItem | index.js:278-299 | one pass of the loop body changes the store and reports as `ItemStep` does |
| Acquirer.ProcessItems | index.js:272-304 | the loop leaves the store and the reports of `Run` on the old store |
| Acquirer.PrefixStable | index.js:272-304 | a report, once made, is not changed by later items |
| Acquirer.PrefixReports | index.js:272-304 | report j is item j's own outcome on the files the earlier items left, in index order, each item once |
| Acquirer.ItemsInOrder | index.js:272-304 | the same for the whole run |
| Acquirer.DelaysBetweenItems | index.js:295-299 | a pause follows item j exactly when j is not last and the item raised no exception; it lasts 30000 to 34999 ms |
| Acquirer.RequestsNeedVideoSource | index.js:282-284 | item j issues a GET request, with the descriptor found for it, exactly when a non-empty source was found and its target was missing when its turn came |
| Acquirer.DownloadsWhenPossible | index.js:282-286 | item j is downloaded, to its own target, exactly when a non-empty source was found, its target was missing and the transfer finished |
| Acquirer.NoSourceNoRequest | index.js:282-292 | an item without a non-empty source issues no request and is reported as having no source or as failed |
| Acquirer.NoSourceKeepsFiles | index.js:282-292 | an item without a non-empty source leaves the files as they were |
| Acquirer.PrefixFiles | index.js:183-189 | the existing files stay, and the only new files are targets of handled items |
| Acquirer.PrefixFilesGrow | index.js:183-189 | no file is ever removed along the loop |
| Acquirer.PrefixReportedInFiles | index.js:183-189 | every item reported so far as downloaded or already present has its target among the files |
| Acquirer.RunFiles | index.js:284-286 | after the run, the old files remain, new files are targets, and each item reported as downloaded or already present has its target file |
| Acquirer.PrefixAllPresent | index.js:185-189 | with all targets present, no file changes and no request is made |
| Acquirer.RerunRequestsNothing | index.js:185-189 | a run over a list whose targets all exist requests nothing, downloads nothing and leaves the files unchanged |
| Acquirer.RunTwice | index.js:185-189 | after a run in which every item was downloaded or found already present, a second run requests nothing and changes no file |
| Acquirer.AsWrittenPrefix | index.js:111 | as written, every handled item ends in the per-item catch, with no file, no request and no pause |
| Acquirer.AsWrittenSavesNothing | index.js:111 | as written, a whole run saves nothing and every item is reported as an error |
| Acquirer.AsWrittenDiffersFromIntended | index.js:163 | for a page that shows a player and a finished transfer: with `url` the file is saved, as written the item fails |

## Left out

- Puppeteer is replaced by injected outcomes: `newPage`, the set-up of lines 72-108, the navigation, the pause, `waitForSelector`, the two page scripts and `close`. The user-agent strings and viewports are not modelled.
- The device and post-navigation draws (`DeviceIndex`, `PageWaitMs`) are modelled as functions of the draw only. They are not threaded through `GetVideoUrl`, whose outcome the injected page already fixes.
- axios and the file stream are replaced by a `Transfer` outcome: request failure, writer error with or without a partial file, or finish. Request headers, timeouts, redirects and the `content-length` progress display (floating-point `toFixed`) are not modelled.
- A stream that neither finishes nor fails leaves `downloadVideo` pending forever. The model has no such outcome.
- The `videos/` directory is a set of names. Its creation (`mkdirSync`), paths and file contents are not modelled. A failing `mkdirSync` would make `downloadVideo` return null before the existence test.
- `readSourceData` (JSON parsing of the link file, and errors collapsed to an empty list) is not part of this model. `Run` takes the parsed list, and the empty list covers the error case.
- The HTML parsing of `cheerio` and its selector matching are not modelled. Each matched `li` arrives as a `Candidate` (its `href`, or none, and its raw span text).
- JSON reading, parsing and writing, and all logging, are left out. Logs only show up as the statuses of `ItemStatus`.
- A null `videoSrc` is modelled as the empty string. Both fail the test of line 282.
- Sequential execution only: the scripts are single-threaded, and the model orders the awaits as the code does.
- `Math.random()` values are exact reals in [0, 1), not doubles.
- The closing of the browser in `main`'s finally is not modelled. It does not affect the reports or the files.
- The comment at line 296 says the pause is 3 to 8 s. The code computes 30000 to 34999 ms, and the model follows the code.
- `replace('//', '')` removes the first `//` wherever it occurs, not only a leading one. The model follows the code (`Extractor.UrlOfAbsoluteExample`).
- TargetNameCollision: file names are compared exactly, character by character. On a case-insensitive volume two titles differing only in case also collide; that is not modelled.
- The fallback read of a plain `video` element (lines 138-155) runs only after `waitForSelector('#video-player')` has succeeded and the player has then vanished. The model takes that race as given (`Probed(None, fallback)`); its timing is not modelled. A page with a `video` element and no player gives null (`Acquirer.NoPlayerGivesNull`).
- The set-up navigates to the item's raw url at line 76, before the prefix rule of line 111. So the corrected line 111 is reached only when that first navigation accepts the raw address (`setupOk`); a scheme-less address such as `www.x.com/v` gets its `https://` prefix only if the browser accepted it at line 76.

## Findings

| source | as written | input that shows it | evidently intended | confidence | as-written member | corrected member |
|---|---|---|---|---|---|---|
| index.js:111 | the full address is built from `pageUrl`, an undeclared name, and the catch at line 163 reads it again, so `getVideoUrl` always rejects and `main` saves no video | any item, e.g. `{url: "www.x.com/v", text: "clip"}`, with a browser that accepts that raw address at line 76, a page at `https://www.x.com/v` that shows a player, and a transfer that finishes | build the address from the parameter `url` | not executed | Acquirer.AsWrittenSavesNothing | Acquirer.GetVideoUrl |
