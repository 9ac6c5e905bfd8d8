# Link checking of scala_text, modelled in Dafny

The scala_text book checks its own links in `test/link.js`. It reads every manuscript of `src/` plus the top-level README and collects the `href` of every anchor and the `src` of every image. It then splits the links in two:

- **URLs.** Any link starting with `http` is a URL. URLs are de-duplicated, black-listed hosts (`localhost`, `127.0.0.1`) are meant to be dropped, and the rest are requested over HTTP. Whether the black-list test runs at all depends on the runtime (see Findings).
- **Local files.** The remaining links are filtered to `.md`, `.scala` and `.sbt` paths (no `#` anchors) and checked for existence under `src/`.

To spread the load over hosts, the URLs are first arranged into "waves":

- URLs are grouped by a domain key: the URL with its first `http://`/`https://` and a leading `www.` removed, cut to 7 characters.
- The groups are transposed, so that no two URLs of one wave share a key.
- A scheduler then requests the waves one round at a time, at most 35 URLs per round. An oversize wave's remainder goes back to the front of the queue.

This project models that pipeline as pure functions and proves its properties. The modules are:

- `Wrappers`: `Option` and `Result`.
- `SeqUtil`: the utility functions `merge`, `flatten`, `map`, `flatMap`, `partition`, `range`, `repeatBlank`, plus the `[...new Set(urls)]` de-duplication.
- `Strings`: `startsWith`, `endsWith`, `includes` and `substr(0, n)`.
- `Grouping`: `groupBy`, `transpose` and `groupByAndTranpose`. Object properties become buckets in first-seen order. The truthiness test of the transpose loop is a parameter.
- `Links`: `isUrl`, `deleteProtocolFromUrl`, `deleteFirstKUSA`, the domain key, `isBlackListedHost`, the local-link filter, `modifyLinkForTest` and `relativePathFromTestDir`.
- `Scheduler`: the round structure of `requestAsync`.
- `LinkCheck`: the suite's data flow from the links of the parsed pages to the checked files and the request rounds.
- `Examples`: cases of the utility test suite and of the scheduler.

Inputs that come from outside the pure code are parameters:

- the links of each page (`LinkCheck.Page`);
- the directory listing of `src/` (`LinkCheck.Targets`).

Some consequences of the source that are easy to miss:

- **`.html` links are never checked.** The extension filter at lines 237-241 runs before `modifyLinkForTest`, so a link ending in `.html` is dropped before it can be rewritten (`Links.HtmlLinksAreNotChecked`). `Links.ModifyLinkForTest` still models the rewrite itself.
- **The black-list test throws unless a loaded library adds `Array.prototype.any`.** Line 213 calls `any` on an array. Standard ECMAScript arrays have no such method, and then every call throws (see Findings). If a library loaded in the same process, such as a collections shim, defines `any` as "some element is truthy", line 213 computes the intended predicate `Links.IsBlackListedHost`. The pipeline model `LinkCheck.CheckLinks` uses that intended predicate; `LinkCheck.TestUrlsAsWritten` models the other case.
- **Anchors come before images.** The links are all anchors of all pages followed by all images of all pages (line 228), not page by page.

## Model

| member | source | states |
|---|---|---|
| SeqUtil.Merge | test/link.js:13-17 | the result is the first array followed by the second: its first part is `as`, the rest is `bs` |
| SeqUtil.MergeAll | test/link.js:20 | folding `merge` over rows onto an accumulator appends the head-first concatenation of the rows |
| SeqUtil.ConcatAppend | test/link.js:19-22 | concatenating two lists of rows is concatenating each and appending the results |
| SeqUtil.Flatten | test/link.js:19-22 | `flatten` of a non-empty array of arrays is the concatenation of its rows in order |
| SeqUtil.Map | test/link.js:28-30 | same length, element `i` of the result is `f` of element `i` |
| SeqUtil.ConcatOfMap | test/link.js:32-34 | concatenating the mapped rows is the same as concatenating `f(x)` element by element |
| SeqUtil.FlatMap | test/link.js:32-34 | `flatMap(xs, f)` is the concatenation of `f(x)` over `xs`, for non-empty `xs` |
| SeqUtil.Select | test/link.js:237-241 | `Array.prototype.filter` and each side of `partition`: the elements with the wanted predicate value, in input order, never more than the input |
| SeqUtil.SelectMembers | test/link.js:36-46 | an element is on a side of the partition exactly when it is in the input and the predicate has that side's value |
| SeqUtil.SelectSplit | test/link.js:36-46 | the two sides together have the input's length and the input's multiset |
| SeqUtil.SelectCount | test/link.js:36-46 | each side keeps every copy of an element of its side and none of the others |
| SeqUtil.SelectAppend | test/link.js:36-46 | partitioning a concatenation partitions each part and concatenates |
| SeqUtil.SelectAll | test/link.js:237-241 | a filter whose predicate holds everywhere keeps the whole input |
| SeqUtil.SelectNoDup | test/link.js:268 | filtering a duplicate-free list leaves it duplicate-free |
| SeqUtil.Partition | test/link.js:36-46 | the loop returns `ok` = elements with `p(a) === true` and `ng` = the others, both in input order, with lengths and multisets adding up to the input's |
| SeqUtil.Range | test/link.js:48-50 | `range(from, to)` has `to - from + 1` elements and element `i` is `from + i`; a negative length is excluded, since `Array(n)` throws on it |
| SeqUtil.RepeatBlank | test/link.js:52-54 | `num` empty arrays |
| SeqUtil.MaxLen | test/link.js:76 | the longest row's length: no row is longer and some row has it |
| SeqUtil.Dedup | test/link.js:232 | `[...new Set(urls)]` has no duplicates, keeps every input element and adds none |
| SeqUtil.DedupKeepsFirstOccurrenceOrder | test/link.js:232 | the result lists elements in the order of their first occurrence in the input |
| SeqUtil.DedupOfNoDup | test/link.js:232 | a duplicate-free input comes back unchanged |
| SeqUtil.DedupIdempotent | test/link.js:232 | de-duplicating twice equals de-duplicating once |
| SeqUtil.NoDupOfSameMultiset | test/link.js:232 | a rearrangement of a duplicate-free list is duplicate-free |
| Strings.StartsWith | test/link.js:170 | `startsWith`: the string begins with the prefix |
| Strings.EndsWith | test/link.js:239 | `endsWith`: the string ends with the suffix |
| Strings.Contains | test/link.js:190 | `includes`: the pattern starts at the beginning or somewhere later in the string |
| Strings.ContainsAt | test/link.js:190 | `includes` holds exactly when the pattern occurs at some index |
| Strings.Take | test/link.js:278 | `substr(0, n)` is a prefix of length `n`, or the whole string when it is shorter |
| Strings.EndsWithAfterPrefix | test/link.js:193 | a `$`-anchored suffix test on `src/` + path looks only at the path |
| Grouping.Keys | test/link.js:56-67 | the property names of the grouping object, one per bucket, in order |
| Grouping.Values | test/link.js:97 | `Object.values`: one array per bucket, in bucket order |
| Grouping.WithKeyMembers | test/link.js:56-67 | the elements of key `k` are exactly the input elements whose key is `k` |
| Grouping.Insert | test/link.js:59-64 | one loop step pushes `a` onto the bucket of `k` or opens a new last bucket `[a]`, and changes nothing else |
| Grouping.InsertKeepsGrouping | test/link.js:58-65 | one loop step keeps the buckets a grouping of the prefix read so far |
| Grouping.GroupBy | test/link.js:56-67 | distinct keys, each bucket holds exactly the elements of its key in input order, no bucket is empty, every element's key has a bucket |
| Grouping.GroupByKeysInFirstSeenOrder | test/link.js:56-67 | the bucket keys are the distinct keys of the input in first-seen order |
| Grouping.GroupByKeepsEveryElement | test/link.js:56-67 | the buckets together hold exactly the input, as a multiset |
| Grouping.Transpose | test/link.js:74-87 | the nested loops produce one column per index of the longest row; column `c` holds the truthy `row[c]` in row order, skipping short rows |
| Grouping.ColumnTruthy | test/link.js:81-82 | only truthy entries reach a column |
| Grouping.ColumnFull | test/link.js:79-85 | when every row reaches column `c` with a truthy entry, the column has one entry per row |
| Grouping.ColumnWithKey | test/link.js:79-85 | for rows of uniform key, the entries of key `k` in column `c` are `row[c]` of the row of key `k` |
| Grouping.TransposeKeepsTruthyEntries | test/link.js:74-87 | the columns together hold exactly the truthy entries of the rows, as a multiset |
| Grouping.TransposePreservesCount | test/link.js:74-87 | with truthy entries only, the total element count is preserved |
| Grouping.Waves | test/link.js:95-99 | `groupByAndTranpose(xs, f)`: the transpose of the arrays of `groupBy(xs, f)`, in bucket order |
| Grouping.BucketsAreUniform | test/link.js:96-97 | every array of `Object.values(groupBy(xs, f))` has a single key |
| Grouping.KeyWithoutBucket | test/link.js:56-67 | a key without a bucket has no elements |
| Grouping.WavesByKey | test/link.js:95-99 | wave `c` holds, of each key, exactly that key's `c`-th element when it is truthy, so the elements of a key appear in input order across successive waves |
| Grouping.WavesCoverEveryKey | test/link.js:95-99 | there are at least as many waves as any key has elements |
| Grouping.WavesHaveDistinctKeys | test/link.js:95-99 | no two elements of a wave share a key |
| Grouping.WavesKeepTruthyElements | test/link.js:95-99 | the waves together hold exactly the truthy input elements, as a multiset |
| Grouping.SpreadKeepsKeyOrder | test/link.js:74-87 | rows holding, of key `k`, one element each of a sequence `w` in order, read one after the other, hold exactly `w` of key `k` |
| Grouping.WavesKeepKeyOrder | test/link.js:95-99 | with truthy elements only, reading the waves one after the other gives each key's elements exactly in input order |
| Grouping.FirstWaveHasEveryKey | test/link.js:95-99 | with truthy elements only, the first wave has one element per distinct key |
| Grouping.GroupByAndTranspose | test/link.js:95-99 | all of the wave properties above for the result of `groupBy`, `Object.values`, `transpose` |
| Links.IsUrl | test/link.js:169-171 | `isUrl`: the link starts with `http` |
| Links.UrlsAreHttpPrefixed | test/link.js:169-171 | a link is a URL exactly when it is `http` followed by anything; the scheme is not checked |
| Links.ProtocolLen | test/link.js:175 | the length of a match of `https?://` at an index: 8, 7 or none, inside the string |
| Links.FindProtocol | test/link.js:175 | the leftmost index from which the pattern matches, or none when it matches nowhere |
| Links.DeleteProtocolFromUrl | test/link.js:174-176 | the URL is unchanged exactly when the pattern matches nowhere; otherwise it loses exactly 7 or 8 characters, the length of the matched protocol |
| Links.DeleteProtocolRemovesLeftmostMatch | test/link.js:174-176 | without a match the URL is unchanged; otherwise exactly the leftmost match is cut out, wherever it is |
| Links.DeleteSchemePrefix | test/link.js:174-176 | a leading `http://` or `https://` is exactly what is removed |
| Links.DeleteLeadingWww | test/link.js:179-181 | one leading `www.` is removed; a string without it is unchanged |
| Links.DeleteOneWww | test/link.js:179-181 | only one `www.` is removed |
| Links.DomainKey | test/link.js:276-279 | the key is at most 7 characters long, a prefix of the stripped host, the whole stripped host when that is shorter |
| Links.DomainKeyBehindScheme | test/link.js:278 | behind a scheme, the key is the first 7 characters of the rest with a leading `www.` removed |
| Links.DomainKeyIgnoresScheme | test/link.js:278 | `http` and `https` URLs of the same host get the same key |
| Links.DomainKeyIgnoresWww | test/link.js:278 | a host with and without `www.` gets the same key |
| Links.IsBlackListedHost | test/link.js:207-214 | intended meaning: the URL with its first protocol removed starts with a black-listed host |
| Links.IsBlackListedHostAsWritten | test/link.js:213 | as written, on standard arrays without an `any` method, every call throws a TypeError |
| Links.BlackListAsWrittenThrows | test/link.js:207-214 | on standard arrays, the as-written check throws on every URL the intended check excludes |
| Links.ModifyLinkForTest | test/link.js:189-194 | the result is `src/` + path; a trailing `.html` becomes `.md` only when the path does not contain `example_projects` |
| Links.IsCheckableLocal | test/link.js:237-241 | the local-link filter: not a `#` anchor, and ending in `.md`, `.scala` or `.sbt` |
| Links.HtmlLinksAreNotChecked | test/link.js:237-241 | no link ending in `.html` passes the extension filter |
| Links.LocalTestFiles | test/link.js:237-241 | each checked file is a kept link with `src/` in front and nothing rewritten |
| Links.RelativePathFromTestDir | test/link.js:199-201 | the path is `../src/` followed by the file name |
| Scheduler.Step | test/link.js:290-296 | one round takes the front wave, caps it at 35, puts the remainder back at the front, and loses nothing; the measure falls |
| Scheduler.Dispatch | test/link.js:310-315 | while every response passes the status assertions, rounds continue as long as the queue is not empty; every batch has at most 35 URLs and the batches in order hold exactly the initial waves in order |
| Scheduler.DispatchOversizeFront | test/link.js:293-296 | an oversize front wave gives its first 35 URLs, and its remainder is the very next batch source |
| Scheduler.DispatchSmallFront | test/link.js:290-296 | a front wave within the cap is requested whole, then the rest of the queue follows |
| Scheduler.DispatchIsChunking | test/link.js:286-296 | the batches are each wave cut into blocks of 35, wave after wave; no two waves are mixed |
| Scheduler.ChunksCount | test/link.js:293-296 | a wave of `n > 0` URLs takes ceil(n / 35) rounds |
| Scheduler.ChunksAreSlices | test/link.js:294 | block `k` of a wave is its slice from `35k` to `35(k+1)` or the end |
| Scheduler.DistinctKeysSlice | test/link.js:294 | a slice of a wave with distinct keys has distinct keys |
| Scheduler.DispatchKeepsDistinctKeys | test/link.js:286-296 | when no two URLs of a wave share a key, no two URLs of a batch do |
| LinkCheck.Targets | test/link.js:218-221 | the README first, then every `.md` entry of `src/` in listing order as `../src/<name>` |
| LinkCheck.AllLinks | test/link.js:225-228 | the anchors of all pages, page by page, followed by the images of all pages |
| LinkCheck.Urls | test/link.js:229-232 | the URLs are exactly the URL links, without duplicates |
| LinkCheck.TestUrls | test/link.js:268 | exactly the URLs whose host is not black-listed, duplicate-free when the URLs are |
| LinkCheck.TestUrlsAsWritten | test/link.js:268 | as written, on standard arrays without an `any` method, the filter throws on any non-empty list and otherwise yields no URL |
| LinkCheck.TestFiles | test/link.js:237-241 | a path is checked exactly when it is `src/` + a link that passes the filter |
| LinkCheck.RequestRounds | test/link.js:276-296 | with URLs left, the rounds are the waves of the URLs by domain key cut into rounds; each round has at most 35 URLs with distinct domain keys, every URL is requested exactly once, and the URLs of each domain are requested in input order, provided every response passes the status assertions of lines 302-305; with no URL, `transpose` throws |
| LinkCheck.CheckLinks | test/link.js:228-296 | the URLs are the de-duplicated URL links in first-seen order, the checked files are the filtered non-URL links under `src/`, the tested URLs are the URLs without black-listed hosts, and the rounds are their waves cut into rounds; each is also characterised by membership, and the rounds by the 35-URL cap, distinct domain keys and per-domain input order |
| Examples.MergeExample | test/link.js:102-115 | `merge([1], [3, 4])` is `[1, 3, 4]`, also for arrays of arrays |
| Examples.FlattenExample | test/link.js:116-120 | `flatten([[1, 2], [3]])` is `[1, 2, 3]` |
| Examples.PartitionExample | test/link.js:130-132 | partitioning `[1, 2, 3, 4]` by `i % 2 === 1` gives `[1, 3]` and `[2, 4]` |
| Examples.MapExample | test/link.js:124-126 | `map([1, 2, 3], x => 2 * x)` is `[2, 4, 6]` |
| Examples.FlatMapExample | test/link.js:127-129 | `flatMap([1, 2, 3], x => [2 * x, 3 * x])` is `[2, 3, 4, 6, 6, 9]` |
| Examples.RangeExample | test/link.js:133-138 | `range(3, 6)` is `[3, 4, 5, 6]` and `repeatBlank(3)` is three empty arrays |
| Examples.TransposeExample | test/link.js:145-150 | the transpose of `[[1, 2, 3, 4], [5, 6, 7], [8]]` is `[[1, 5, 8], [2, 6], [3, 7], [4]]` |
| Examples.OversizeWave | test/link.js:293-296 | a wave of 40 URLs is requested as 35 and then 5, before anything queued behind it |

## Left out

- `parseFile`, `kramed` and `cheerio`: reading, rendering and scraping pages are library calls. Each page is given as its list of `href` and `src` values (`LinkCheck.Page`).
- `fs.readdirSync`: the directory listing of `src/` is a parameter of `LinkCheck.Targets`.
- `undefined` links: an anchor without `href` yields `undefined` and makes `isUrl` throw. Links are modelled as strings only.
- `qfs.stat`: the existence checks are file-system I/O.
- The `qfs.join(filePath).startsWith("src")` check (line 246): it depends on q-io's path normalisation, which is not part of this model.
- `qht.request`, the status assertions, `sleep.sleep(1)`, mocha's `done` and timeouts, and the `Promise.all` sequencing: these are network I/O and asynchrony. Only the order and size of the request rounds is modelled.
- Scheduler.Dispatch: the rounds of a run in which every response passes the status assertions of lines 302-305. A failing status rejects that round's `Promise.all`, and the rejection handler at line 318 ends the run before the next round, so later waves are never requested. A connection error goes to the handler at line 308, which resolves, so the rounds continue.
- `console.log` and the progress counter of `requestAsync`: these are logging only.
- Grouping.GroupBy: buckets are in first-seen order. JavaScript's `Object.values` lists integer-like keys first, in ascending order. A key that names an `Object.prototype` property (e.g. `constructor`) makes `xs[group]` truthy before any push, and the push then throws. Neither case is modelled.
- Strings.Take: `substr` counts UTF-16 code units; the model counts `char`s.
- Grouping.Transpose: the truthiness test of line 81 is the parameter `truthy`. For strings it is `NonEmpty`. JavaScript's full truthiness over mixed types is not modelled.
- The concrete example of `groupBy` at lines 139-144 and of `groupByAndTranpose` at lines 151-157 are not stated as lemmas. Their general properties are stated by `Grouping.GroupBy` and `Grouping.WavesByKey`.

## Findings

| source | as written | input that shows it | evidently intended | confidence | as-written member | corrected member |
|---|---|---|---|---|---|---|
| test/link.js:213 | `BLACK_LIST.map(...).any(identity)` calls `any`, which standard ECMAScript arrays do not have. Unless a loaded library adds `Array.prototype.any`, every call throws a TypeError, and the filter at line 268 then throws on any non-empty list of URLs. | `isBlackListedHost("http://localhost:9000/")` | `.some(identity)`: true when the URL without its protocol starts with `localhost` or `127.0.0.1` | not executed | Links.IsBlackListedHostAsWritten | Links.IsBlackListedHost |
