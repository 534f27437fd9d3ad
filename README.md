# Hakushin Wuthering Waves spider, modelled in Dafny

`wuthering_spider.py` crawls the Hakushin data API for Wuthering Waves. For
each category it fetches an index, saves it, and fetches the detail JSON of
every identifier in every language. While it does this it scans each JSON
value for Unreal Engine asset paths such as
`/Game/Aki/UI/.../T_IconA_hsb_UI.T_IconA_hsb_UI`, turns each one into a
`.webp` URL on `https://api.hakush.in/ww/`, and finally downloads every
collected image into `assets/`.

This project models the deterministic core of that script:

- **`parse_game_asset_path`** (module `AssetPath`). The game root is folded to
  `/`. The regular expression `\.[^/]+$` is modelled as a string function.
  Then the image-extension test, the `.webp` suffix and the stripping of
  leading slashes follow. The join is Python's `urljoin`, modelled in module
  `UrlJoin` for relative references made of plain characters. That includes
  empty-segment and dot-segment removal (section 5.2.4 of RFC 3986, as CPython
  does it), so `..` is resolved rather than kept.
- **`extract_images_from_data`** (module `AssetCollector`, and the class
  method). The scan is a pure function `Collect` over a `Json` datatype whose
  objects keep their key order. The method adds its result to the
  `globalImageUrls` field.
- **The identifier list and fan-out of `process_category`** (module
  `IndexIds`). This covers dict keys, `str(x.get('id', x.get('Id', '')))` per
  list element, the empty-string filter, and one task per identifier and
  language.
- **The retry rules of `fetch_json` and `download_file`** (module `Retry`).
  They are modelled over the reply each attempt receives.
- **The temporary-file write of `download_file`** (module `AtomicWrite`):
  `with_suffix(".tmp")` and the `temp_path.replace(save_path)` that moves the
  body into place.
- **The class `HakushinSpider`** (module `Spider`). Its fields are the URL
  set, the JSON and binary files of the output directory (as maps from path
  to content), and the progress counters. Its methods mirror
  `fetch_json`, `download_file`, `extract_images_from_data`,
  `process_category`, `process_single_item`, `download_all_images` and
  `_download_wrapper`. `FetchJson`, `DownloadFile`, `DownloadWrapper`,
  `ExtractImagesFromData`, `ProcessSingleItem`, `FetchIndex`, `RunDetails`
  and `ProcessCategory` are proved against pure functions (`FetchRule`,
  `DownloadRule` with `Commit`, `Collect`, `ItemStep`, `IndexData`,
  `ItemsStep`, `CategoryStep`), and the properties are proved about those
  functions. `DownloadAllImages` is proved against the predicates
  `DownloadedFrom` and `ServedSaved`, which do not depend on the order the
  URL set is visited in.

Two consequences of the code are worth knowing:

- A `..` segment after the game root is resolved by `urljoin` and climbs out
  of `/ww/` (`ParentSegmentLeavesBase`). The join is not a plain
  concatenation in that case.
- `index.json` and the detail files are written straight to their final
  paths with `json.dump`. Only asset downloads go through a temporary file.

## Model

| member | source | states |
|---|---|---|
| AssetPath.ParseGameAssetPath | wuthering_spider.py:28-47 | For plain input strings (no scheme, query, fragment or parameters), a URL comes back exactly when the input is non-empty and still holds a `/` after `/Game/Aki/` is folded to `/`. Every such URL is on `https://api.hakush.in/` and ends in `.webp`. |
| AssetPath.CandidateKeepsSlash | wuthering_spider.py:37-40 | A string holding `/Game/Aki/` or `/UI/` always passes the "no `/`" rejection. |
| AssetPath.NormalizeLeadingRoot | wuthering_spider.py:37 | A leading game root with no other occurrence is replaced by a single `/`. |
| AssetPath.StripExtension | wuthering_spider.py:42 | The substitution keeps a prefix of the path. It cuts exactly at the leftmost position where `\.[^/]+$` matches, and at no earlier one. |
| AssetPath.StrippedHasNoInnerDot | wuthering_spider.py:42 | After the substitution, every dot except a final one has a `/` after it, so the last segment keeps no inner dot. |
| AssetPath.StripAtFirstDotOfLastSegment | wuthering_spider.py:42 | The substitution cuts a path at the first dot of its last segment (`x/N.A.B` becomes `x/N`), when every earlier dot has a slash after it. |
| AssetPath.StrippedIsNeverImage | wuthering_spider.py:42-45 | The `.png`/`.jpg`/`.webp` test can never succeed after the substitution, so `.webp` is always appended, also for `.png` and `.jpg` inputs. |
| AssetPath.RelativePathFacts | wuthering_spider.py:42-47 | The path handed to `urljoin` is non-empty, ends in `.webp`, does not start with `/`, and is a reference the join model covers. |
| AssetPath.AssetUrlShape | wuthering_spider.py:44-47 | Wherever dot segments lead, the joined URL stays on the asset host and ends in `.webp`. |
| AssetPath.ParseIsConcatenation | wuthering_spider.py:47 | When the cleaned path's segments are ordinary names, the result is `BASE_ASSET_URL` followed by the cleaned path with its leading slashes removed. |
| AssetPath.ParseUnderRoot | wuthering_spider.py:28-47 | `/Game/Aki/d1/.../dn/Name.Object` with ordinary names resolves to `BASE_ASSET_URL + "d1/.../dn/Name.webp"`. |
| AssetPath.DocumentedExample | wuthering_spider.py:31-32 | The docstring's input maps to the docstring's output URL. |
| AssetPath.ParentSegmentLeavesBase | wuthering_spider.py:47 | `/Game/Aki/../Name.Object` resolves to `https://api.hakush.in/Name.webp`: the `..` is resolved, and the URL leaves `/ww/`. |
| UrlJoin.JoinIsConcatenation | wuthering_spider.py:47 | On a base whose path names a directory, a reference of ordinary segments joins to the base text followed by the reference. |
| UrlJoin.JoinKeepsHostAndLastSegment | wuthering_spider.py:47 | The join keeps the base's scheme and host, and ends in the reference's last segment when that segment is an ordinary name. |
| UrlJoin.ParentOfOneDirectory | wuthering_spider.py:47 | `../leaf` against a one-directory base path resolves to `leaf` at the host's root. |
| AssetCollector.FromLeaf | wuthering_spider.py:122-126 | A string leaf adds at most one URL, and only an asset URL. |
| AssetCollector.Collect | wuthering_spider.py:114-126 | For a value whose candidate strings are plain, every URL the scan adds is a `.webp` URL on the asset host. |
| AssetCollector.CandidateResolves | wuthering_spider.py:123-125 | Every candidate string resolves, so the `if real_url` test never fails, and the leaf adds exactly that URL. |
| AssetCollector.CollectResolvesLeaves | wuthering_spider.py:114-126 | A URL is collected from a value if and only if some string leaf of the value, dict keys excluded, is a candidate that resolves to it. Numbers, booleans and nulls add nothing. |
| AssetCollector.CandidateLeafCollected | wuthering_spider.py:123-126 | Every candidate leaf contributes its resolved URL. |
| AssetCollector.NoCandidateNoUrls | wuthering_spider.py:114-126 | A value without candidate strings adds nothing. |
| Retry.FetchRuleDecided | wuthering_spider.py:69-85 | There are one to three attempts, and every attempt before the last one failed. The loop ends before the third attempt only on a 404 or a parsed body. The value is returned only from a parsed body. |
| Retry.NotFoundStops | wuthering_spider.py:74-77 | A 404 after failures ends the loop at once with `None`, whatever later attempts would bring. |
| Retry.AllFailedGivesUp | wuthering_spider.py:80-85 | Three failures give `None` after exactly three attempts. |
| Retry.DownloadRuleDecided | wuthering_spider.py:87-112 | Zero attempts happen exactly when a non-empty file exists and `force` is off, and that case succeeds. Otherwise every attempt before the last raised, and the first response decides: 200 succeeds, anything else fails. Only a success stores a body, and it is that response's body. |
| Retry.BadStatusNoRetry | wuthering_spider.py:98-99 | A non-200 status on the first attempt fails after one attempt, storing nothing. |
| AtomicWrite.Suffix | wuthering_spider.py:100 | `PurePath.suffix` is a tail of the name. It is either empty or a dot followed by at least one character and no further dot. |
| AtomicWrite.TempPath | wuthering_spider.py:100 | `with_suffix(".tmp")` gives a path ending in `.tmp`. |
| AtomicWrite.TempPathIsElsewhere | wuthering_spider.py:100 | A path not ending in `.tmp` is never its own temporary path. |
| AtomicWrite.Replace | wuthering_spider.py:105 | After `os.replace`, the destination holds the source's content, the source is gone, and every other file is unchanged. |
| AtomicWrite.CommitStoresWholeBody | wuthering_spider.py:100-106 | After the write and the replace, the destination holds exactly the whole body, the temporary file is gone, and every other file is unchanged. |
| IndexIds.IdField | wuthering_spider.py:152 | `id` wins whenever present, even when null. Otherwise `Id` is used, and otherwise `''`. |
| IndexIds.ElementIds | wuthering_spider.py:152 | The comprehension yields a result exactly when every element is a dict. It then gives one `str` of the identifier field per element, in order. |
| IndexIds.PyStrEmpty | wuthering_spider.py:152-154 | `str()` of an identifier is empty only for `''` and for a list or dict whose text is empty. |
| IndexIds.IdList | wuthering_spider.py:148-154 | The run fails exactly when a list index holds a non-dict element. Otherwise the list is no longer than the index and has no empty string. |
| IndexIds.DictIds | wuthering_spider.py:149-154 | A dict index gives its non-empty keys, in key order, and exactly those. |
| IndexIds.ListIds | wuthering_spider.py:151-154 | A list of dicts gives exactly the non-empty identifier texts, in list order. |
| IndexIds.NullIdIsNone | wuthering_spider.py:152-154 | An element whose `id` is null is named `"None"`, whatever its `Id` says, and the filter keeps it. |
| IndexIds.NumericIdKept | wuthering_spider.py:152-154 | A numeric identifier is never filtered out. |
| IndexIds.TasksLength | wuthering_spider.py:159-162 | There are `len(ids) * len(langs)` tasks. |
| IndexIds.TaskAt | wuthering_spider.py:159-162 | Task `i * len(langs) + j` is identifier `i` in language `j`: identifiers outer, languages inner. |
| IndexIds.TaskCount | wuthering_spider.py:156 | The progress increment equals the number of tasks. |
| IndexIds.FanOut | wuthering_spider.py:159-162 | The nested loops build exactly `Tasks(ids, langs)`, with `len(ids) * len(langs)` entries. |
| Spider.AssetFilename | wuthering_spider.py:207 | The file name has no `/` and is a tail of the URL. |
| Spider.FilenameAfterLastSlash | wuthering_spider.py:207 | The file name is exactly what follows the last `/`. |
| Spider.SameNameSamePath | wuthering_spider.py:206-208 | Two different URLs with the same last segment share one save path. |
| Spider.AssetSavePathFacts | wuthering_spider.py:207-208 | An asset URL's save path has a non-empty name and does not end in `.tmp`. |
| Spider.ItemStep | wuthering_spider.py:171-190 | The cache rule keeps the store valid: cached parses, URLs and fetched values stay ones the scan can take. |
| Spider.ItemStepOnlyAdds | wuthering_spider.py:179-190 | URLs are only added, no file disappears, and a file changes only at the item's path and only to a truthy value. |
| Spider.ItemStepIdempotent | wuthering_spider.py:171-190 | Processing the same item again against the same server changes nothing. |
| Spider.ItemRequests | wuthering_spider.py:171-182 | At most three requests, and none exactly when a truthy parse is cached and `force` is off. |
| Spider.RerunSendsNoRequest | wuthering_spider.py:171-187 | Without `force`, a second run of an item sends no request exactly when a truthy value was cached before or fetched and saved by the first run. |
| Spider.ItemsStep | wuthering_spider.py:159-164 | Running the detail tasks in order keeps the store valid. |
| Spider.ItemsStepKeepsTruthy | wuthering_spider.py:159-164 | Running detail tasks never loses a URL, and a truthy file stays present and truthy. |
| Spider.IndexFallback | wuthering_spider.py:131-140 | The `en/` index wins when truthy, and otherwise the unqualified one decides. The category is skipped exactly when both are falsy (`None`, `{}`, `[]`, ...). |
| Spider.CategoryStep | wuthering_spider.py:128-164 | A category keeps the store valid. |
| Spider.HakushinSpider.constructor | wuthering_spider.py:50-64 | The spider starts with an empty URL set and the given settings and files. |
| Spider.HakushinSpider.FetchJson | wuthering_spider.py:69-85 | The loop returns what `FetchRule` decides, with the same attempt count. |
| Spider.HakushinSpider.DownloadFile | wuthering_spider.py:87-112 | Result and attempts are those of `DownloadRule`. The files change only by committing the stored body through the temporary file. |
| Spider.HakushinSpider.ExtractImagesFromData | wuthering_spider.py:114-126 | The URL set becomes its old value plus `Collect(data)`. |
| Spider.HakushinSpider.ProcessSingleItem | wuthering_spider.py:166-193 | The URL set and JSON files become `ItemStep` of the old ones. The requests sent are `ItemRequests`: none when a truthy file is cached and `force` is off, otherwise those of `fetch_json`. The progress count rises by one. |
| Spider.HakushinSpider.FetchIndex | wuthering_spider.py:131-136 | The index fetched is `IndexData`: the `en/` index, else the unqualified one. |
| Spider.HakushinSpider.RunDetails | wuthering_spider.py:164 | The detail tasks, run in order, give `ItemsStep`. The progress count rises by one per task. |
| Spider.HakushinSpider.ProcessCategory | wuthering_spider.py:128-164 | Outcome, URL set, JSON files and both progress counters are those of `CategoryStep`. The total and the count rise by the number of tasks. |
| Spider.HakushinSpider.DownloadWrapper | wuthering_spider.py:214-216 | `download_file` runs: the files become what `DownloadRule` decides for the file's current size, with the stored body committed through the temporary file. The asset progress count rises by one. So only the save path can change, and only to a 200 body the server sent. Only the temporary path can disappear. A download that gets a 200 leaves a file at the save path. |
| Spider.HakushinSpider.DownloadAllImages | wuthering_spider.py:195-212 | No URLs: nothing changes. Otherwise the asset bar's total and count both end at the number of URLs. Every changed file is the save path of a collected URL, and holds a 200 body the server sent for it. Only temporary paths of save paths disappear, and every other file stays. In whatever order the set is visited, every URL whose download gets a 200 ends with a file at its save path. |
| Spider.DownloadFileIsOneDownload | wuthering_spider.py:87-112 | `download_file` at an asset save path changes the files only as `OneDownload` allows: one save path, a served body, the temporary file, and nothing else removed. |
| Spider.DownloadedFromStep | wuthering_spider.py:206-211 | One more download of a collected URL keeps "every change so far came from a download of a collected URL". |
| Spider.ServedSavedStep | wuthering_spider.py:206-211 | A later download never removes the file an earlier successful download left, because save paths do not end in `.tmp`. |
| AtomicWrite.CommitKeepsFinalFiles | wuthering_spider.py:100-105 | A commit removes no file except one whose path ends in `.tmp`. |
| AtomicWrite.Commit | wuthering_spider.py:100-105 | After the write and the replace, the destination holds the body. |
| UrlJoin.Join | wuthering_spider.py:47 | `urljoin` with a plain relative reference: the result keeps the base's scheme and host. |
| AssetPath.Normalize | wuthering_spider.py:37 | `str.replace` of every `/Game/Aki/` by `/`, scanning left to right without overlaps. Its properties are stated by `NormalizeLeadingRoot` and `CandidateKeepsSlash`. |
| AssetPath.RelativeAssetPath | wuthering_spider.py:37-47 | The folded, cut, suffixed path with its leading slashes stripped, so it never starts with `/`. |
| AssetCollector.IsCandidate | wuthering_spider.py:123 | The candidate test; a string that passes it always holds a `/`. |
| Retry.FetchRule | wuthering_spider.py:69-85 | The three-attempt loop of `fetch_json` as a function of each attempt's reply. It makes one to three attempts; `FetchRuleDecided` characterises it fully. |
| Retry.DownloadRule | wuthering_spider.py:87-112 | `download_file`'s cache check and three-attempt loop as a function of the file's current size and each attempt's reply. It makes at most three attempts and stores a body only on success; `DownloadRuleDecided` characterises it fully. |
| IndexIds.PyStr | wuthering_spider.py:152 | `str(v)`: a string is itself, `None`/`True`/`False` are their names, an integer its decimal text, a list or dict `reprOf(v)`. Its empty cases are stated by `PyStrEmpty`. |
| IndexIds.Tasks | wuthering_spider.py:159-162 | The task list of the nested loops: identifiers outer, languages inner. Its length and layout are stated by `TasksLength` and `TaskAt`. |
| Spider.IndexData | wuthering_spider.py:131-136 | The `en/` index when truthy, else the unqualified one; `IndexFallback` states this case by case. |
| Spider.DetailUrl | wuthering_spider.py:168 | `f"{BASE_API_URL}{lang}/{prefix}/{item_id}.json"`. |
| Spider.DetailPath | wuthering_spider.py:169 | `output_dir / category / lang / f"{item_id}.json"`. |
| Spider.IndexPath | wuthering_spider.py:145 | `output_dir / category_name / "index.json"`. |
| Spider.AssetSavePath | wuthering_spider.py:207-208 | `output_dir / "assets" / url.split("/")[-1]`; `AssetSavePathFacts` and `SameNameSamePath` state its properties. |
| AssetPath.WithImageSuffix | wuthering_spider.py:44-45 | The path is kept and, unless it already names an image, `.webp` is appended. Either way the result passes the image-extension test. |

## Left out

- AssetPath.ParseGameAssetPath: requires the input to be plain text. Characters up to space, `:`, `?`, `#` and `;` are excluded, so the `urljoin` cases for a scheme, query, fragment, parameters and stripped whitespace are not modelled. AssetCollector.Resolvable carries the same restriction for every candidate string a scanned value holds. Outside that domain the host guarantee does not hold: a candidate that carries its own scheme and host, such as `https://cdn.example/UI/a.png`, passes the candidate test, becomes `https://cdn.example/UI/a.webp`, and `urljoin` returns it on its own host, so the spider later downloads from that host.
- Spider.HakushinSpider.ExtractImagesFromData: requires the scanned value to be `Resolvable`, for the same reason.
- Spider.HakushinSpider.constructor: requires the JSON server's parsed bodies and the JSON files already on disk to be `Resolvable`, for the same reason.
- Spider.HakushinSpider.ProcessCategory: requires the index file name to be a reference the join model covers. Spider.HakushinSpider.FetchIndex, Spider.IndexData and Spider.CategoryStep require the same.
- Spider.HakushinSpider.DownloadFile: requires the save path to have a non-empty last component. `Path.with_suffix` raises for an empty name, and every asset save path has one (`AssetSavePathFacts`).
- Spider.HakushinSpider.DownloadAllImages: does not state the final file at a save path shared by several URLs, which depends on the order the set is visited in. It states what each file may become and that every URL whose download gets a 200 leaves a file at its save path.
- Spider.HakushinSpider.ProcessSingleItem: the requests it sends are a ghost count (`ItemRequests`), not an effect on the model's state. The contract states how many requests the item's one fetch makes, but cannot exclude a further request whose count is discarded. `FetchJson`'s attempt count is a ghost count in the same way.
- Spider.HakushinSpider.FetchJson: has no `ignore_404` parameter. The flag only suppresses a log line.
- `asyncio.Semaphore`, `asyncio.gather` and the sleeps are left out. Detail tasks run one after another, in list order.
- Spider.HakushinSpider.DownloadAllImages: downloads run one after another, while `asyncio.gather` starts them all at once. Its guarantees assume that no two downloads of one save path overlap. Two URLs with the same file name (`SameNameSamePath`) both pass the exists/size check before either awaits. Both then write the same `.tmp` file, and the first `replace` moves a file the other is still writing. The other then finds no temporary file, skips its own `replace` and reports success, so the saved file can mix two bodies.
- AtomicWrite.CommitStoresWholeBody: the whole-body guarantee holds for one download at a time. It does not hold when another download of the same save path writes the same temporary file concurrently, as described above.
- The httpx client, headers, timeouts and redirects are left out. Each attempt receives a fixed reply that depends on the URL and the attempt number. A streamed body is one whole byte sequence.
- A partial temporary file left behind when streaming fails is not modelled: a failed attempt writes nothing.
- `mkdir`, `stat` beyond the size, and the formatting of `json.dump` are left out. A JSON file is kept as the value `json.load` gives back, or `None` when it cannot be read.
- Paths are joined as text with `/`, without `pathlib` normalisation.
- JSON numbers are integers; floats are left out. `str()` of a list or dict is an uninterpreted parameter (`reprOf`). `lower()` folds ASCII letters only.
- JSON objects are assumed to have distinct keys. `Get` returns the first member with a key.
- Logging, the tqdm bars beyond their totals and counts (`refresh`, `close`), `close()`, argparse and `main` are left out.
- `urljoin` is modelled only for a base of scheme, host and path, and for plain relative references.
