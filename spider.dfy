/**
  `HakushinSpider`: the crawl of one category (index, identifiers, details),
  the scan for asset paths, and the download of every asset found. The
  server is given as the replies it sends to each attempt on each URL, and
  the output directory as two maps from path to content: JSON files (as
  `json.load` reads them back, `None` when that fails) and binary files.
*/
module Spider {

  import opened Wrappers
  import opened JsonValues
  import opened Text
  import opened UrlJoin
  import opened AssetPath
  import opened AssetCollector
  import opened Retry
  import opened AtomicWrite
  import opened IndexIds

  const BASE_API_URL := "https://api.hakush.in/ww/data/"
  const API_BASE := BaseUrl("https", "api.hakush.in", "/ww/data/")

  /** `f"{BASE_API_URL}{lang}/{prefix}/{item_id}.json"`. */
  function DetailUrl(lang: string, prefix: string, itemId: string): string {
    BASE_API_URL + lang + "/" + prefix + "/" + itemId + ".json"
  }

  /** `output_dir / category / lang / f"{item_id}.json"`. */
  function DetailPath(outputDir: string, category: string, lang: string, itemId: string): string {
    outputDir + "/" + category + "/" + lang + "/" + itemId + ".json"
  }

  /** `output_dir / category_name / "index.json"`. */
  function IndexPath(outputDir: string, category: string): string {
    outputDir + "/" + category + "/index.json"
  }

  // ---------------------------------------------------------------------------
  // Asset file names

  /** `url.split("/")[-1]`: the name an asset is saved under. */
  function AssetFilename(url: string): (name: string)
    ensures '/' !in name && EndsWith(url, name)
  {
    LastPartIsSuffix(url, '/');
    Last(Split(url, '/'))
  }

  /** `output_dir / "assets" / filename`. */
  function AssetSavePath(outputDir: string, url: string): string {
    outputDir + "/assets/" + AssetFilename(url)
  }

  /** The file name is what follows the last `/`. */
  lemma FilenameAfterLastSlash(dir: string, name: string)
    requires '/' !in name
    ensures AssetFilename(dir + "/" + name) == name
  {
    SplitAppendPart(dir, name, '/');
  }

  /**
    Assets in different directories with the same file name are saved to the
    same path. Run one after another, the second download finds the first
    one's file; run at the same time, both write the same temporary file.
  */
  lemma SameNameSamePath(outputDir: string, dirA: string, dirB: string, name: string)
    requires dirA != dirB && '/' !in name
    ensures dirA + "/" + name != dirB + "/" + name
    ensures AssetSavePath(outputDir, dirA + "/" + name) == AssetSavePath(outputDir, dirB + "/" + name)
  {
    FilenameAfterLastSlash(dirA, name);
    FilenameAfterLastSlash(dirB, name);
    var a := dirA + "/" + name;
    var b := dirB + "/" + name;
    assert a[..|dirA|] == dirA && b[..|dirB|] == dirB;
  }

  /** An asset URL's file name is never empty and never a temporary file's. */
  lemma AssetFilenameOfAssetUrl(url: string)
    requires AssetUrl(url)
    ensures AssetFilename(url) != [] && EndsWith(AssetFilename(url), WEBP)
  {
    LastPartEndsWith(url, WEBP, '/');
  }

  /** An asset is saved under a non-empty name that is not a temporary file's. */
  lemma AssetSavePathFacts(outputDir: string, url: string)
    requires AssetUrl(url)
    ensures Last(Split(AssetSavePath(outputDir, url), '/')) != []
    ensures !EndsWith(AssetSavePath(outputDir, url), ".tmp")
  {
    var name := AssetFilename(url);
    var path := AssetSavePath(outputDir, url);
    AssetFilenameOfAssetUrl(url);
    FilenameAfterLastSlash(outputDir + "/assets", name);
    assert path == (outputDir + "/assets") + "/" + name;
    EndsWithTransitive(path, name, WEBP);
    assert path[|path| - 4] == WEBP[1];
  }

  // ---------------------------------------------------------------------------
  // The state the crawl builds, as values

  /** The URL set and the JSON files: what `process_single_item` changes. */
  datatype Store = Store(urls: set<string>, json: map<string, Option<Json>>)

  /** Every parsed JSON file is one the scan can take; every URL is an asset URL. */
  predicate StoreValid(st: Store) {
    && (forall p | p in st.json && st.json[p].Some? :: Resolvable(st.json[p].value))
    && (forall u | u in st.urls :: AssetUrl(u))
  }

  /** Every body a server's replies parse to is one the scan can take. */
  ghost predicate RepliesResolvable(reply: nat -> FetchReply) {
    forall k: nat :: reply(k).Parsed? ==> Resolvable(reply(k).value)
  }

  ghost predicate ServerResolvable(server: string -> nat -> FetchReply) {
    forall url: string, k: nat :: server(url)(k).Parsed? ==> Resolvable(server(url)(k).value)
  }

  /** What `fetch_json` returns is one the scan can take. */
  lemma FetchedResolvable(reply: nat -> FetchReply)
    requires RepliesResolvable(reply)
    ensures var v := FetchRule(reply).value; v.Some? ==> Resolvable(v.value)
  {
    FetchRuleDecided(reply);
  }

  /**
    `process_single_item` on the file at `path`: a truthy cached parse is
    used unless `force`; otherwise the detail is fetched and, if truthy,
    written. Assets are collected from whichever value is truthy.
  */
  function ItemStep(st: Store, force: bool, reply: nat -> FetchReply, path: string): (r: Store)
    requires StoreValid(st) && RepliesResolvable(reply)
    ensures StoreValid(r)
  {
    var cached := if path in st.json && !force then st.json[path] else None;
    if IsTruthy(cached) then Store(st.urls + Collect(cached.value), st.json)
    else
      FetchedResolvable(reply);
      var fetched := FetchRule(reply).value;
      if IsTruthy(fetched) then Store(st.urls + Collect(fetched.value), st.json[path := fetched])
      else st
  }

  /**
    The requests `process_single_item` sends for the file at `path`: none on
    a cache hit (a truthy cached parse, `force` off), otherwise the attempts
    of `fetch_json`.
  */
  function ItemRequests(st: Store, force: bool, reply: nat -> FetchReply, path: string): (n: nat)
    ensures n <= MAX_ATTEMPTS
    ensures n == 0 <==> path in st.json && !force && IsTruthy(st.json[path])
  {
    if path in st.json && !force && IsTruthy(st.json[path]) then 0 else FetchRule(reply).attempts
  }

  /**
    Without `force`, running an item again sends no request exactly when a
    truthy value was cached before or fetched by the first run.
  */
  lemma RerunSendsNoRequest(st: Store, reply: nat -> FetchReply, path: string)
    requires StoreValid(st) && RepliesResolvable(reply)
    ensures ItemRequests(ItemStep(st, false, reply, path), false, reply, path) == 0
            <==> (path in st.json && IsTruthy(st.json[path])) || IsTruthy(FetchRule(reply).value)
  {
  }

  /** The detail tasks of a category, run one after another. */
  function ItemsStep(st: Store, force: bool, server: string -> nat -> FetchReply,
                     outputDir: string, category: string, prefix: string, tasks: seq<Task>): (r: Store)
    requires StoreValid(st) && ServerResolvable(server)
    ensures StoreValid(r)
    decreases |tasks|
  {
    if tasks == [] then st
    else
      var before := ItemsStep(st, force, server, outputDir, category, prefix, tasks[..|tasks| - 1]);
      var t := Last(tasks);
      ItemStep(before, force, server(DetailUrl(t.lang, prefix, t.itemId)), DetailPath(outputDir, category, t.lang, t.itemId))
  }

  /**
    Nothing is lost and nothing falsy is written: URLs are only added, a file
    changes only at the item's path, and only to a truthy value.
  */
  lemma ItemStepOnlyAdds(st: Store, force: bool, reply: nat -> FetchReply, path: string)
    requires StoreValid(st) && RepliesResolvable(reply)
    ensures var r := ItemStep(st, force, reply, path);
            && st.urls <= r.urls
            && (forall p | p in st.json :: p in r.json)
            && (forall p | p in r.json && (p !in st.json || r.json[p] != st.json[p]) :: p == path && IsTruthy(r.json[p]))
  {
  }

  /**
    Running an item a second time against the same server changes nothing:
    what the first run wrote is found in the cache, or, with `force` or when
    nothing was written, the same fetch gives the same value.
  */
  lemma ItemStepIdempotent(st: Store, force: bool, reply: nat -> FetchReply, path: string)
    requires StoreValid(st) && RepliesResolvable(reply)
    ensures var r := ItemStep(st, force, reply, path);
            ItemStep(r, force, reply, path) == r
  {
    var r := ItemStep(st, force, reply, path);
    var cached := if path in st.json && !force then st.json[path] else None;
    if !IsTruthy(cached) {
      FetchedResolvable(reply);
      var fetched := FetchRule(reply).value;
      if IsTruthy(fetched) {
        assert r.urls + Collect(fetched.value) == r.urls;
      }
    } else {
      assert r.urls + Collect(cached.value) == r.urls;
    }
  }

  /** A truthy file stays truthy: detail tasks only add URLs and truthy files. */
  lemma {:induction false} ItemsStepKeepsTruthy(st: Store, force: bool, server: string -> nat -> FetchReply,
                                                outputDir: string, category: string, prefix: string, tasks: seq<Task>, p: string)
    requires StoreValid(st) && ServerResolvable(server)
    requires p in st.json && IsTruthy(st.json[p])
    ensures var r := ItemsStep(st, force, server, outputDir, category, prefix, tasks);
            st.urls <= r.urls && p in r.json && IsTruthy(r.json[p])
    decreases |tasks|
  {
    if tasks != [] {
      var front := tasks[..|tasks| - 1];
      ItemsStepKeepsTruthy(st, force, server, outputDir, category, prefix, front, p);
      var before := ItemsStep(st, force, server, outputDir, category, prefix, front);
      var t := Last(tasks);
      ItemStepOnlyAdds(before, force, server(DetailUrl(t.lang, prefix, t.itemId)), DetailPath(outputDir, category, t.lang, t.itemId));
    }
  }

  /**
    The index of a category: the `en/` index, or the unqualified one when
    that is falsy (absent, empty, or failed).
  */
  function IndexData(server: string -> nat -> FetchReply, indexFile: string): (r: Option<Json>)
    requires InModelledCase(indexFile)
  {
    assert AllPlain("en/");
    var first := FetchRule(server(Join(API_BASE, "en/" + indexFile))).value;
    if IsTruthy(first) then first else FetchRule(server(Join(API_BASE, indexFile))).value
  }

  /** The `en/` index wins when it is truthy; otherwise the unqualified one decides. */
  lemma IndexFallback(server: string -> nat -> FetchReply, indexFile: string)
    requires InModelledCase(indexFile)
    ensures AllPlain("en/" + indexFile)
    ensures var en := FetchRule(server(Join(API_BASE, "en/" + indexFile))).value;
            var plain := FetchRule(server(Join(API_BASE, indexFile))).value;
            && (IsTruthy(IndexData(server, indexFile)) <==> IsTruthy(en) || IsTruthy(plain))
            && (IsTruthy(en) ==> IndexData(server, indexFile) == en)
            && (!IsTruthy(en) ==> IndexData(server, indexFile) == plain)
  {
    assert AllPlain("en/");
  }

  /** How a category ends, the store after it, and what it adds to the progress total. */
  datatype CategoryResult = CategoryResult(outcome: CategoryOutcome, store: Store, added: nat)

  /**
    `process_category`: a falsy index skips the category; otherwise the index
    is scanned and saved, then a list element that is not a dict stops the
    run, or one progress step per identifier and language is added and the
    detail tasks run in order.
  */
  function CategoryStep(st: Store, force: bool, server: string -> nat -> FetchReply, reprOf: Json -> string,
                        langs: seq<string>, outputDir: string, category: string, indexFile: string,
                        prefix: string): (r: CategoryResult)
    requires StoreValid(st) && ServerResolvable(server) && InModelledCase(indexFile)
    ensures StoreValid(r.store)
  {
    var index := IndexData(server, indexFile);
    if !IsTruthy(index) then CategoryResult(IndexMissing, st, 0)
    else
      IndexDataResolvable(server, indexFile);
      SavedValid(st, IndexPath(outputDir, category), index.value);
      var saved := Store(st.urls + Collect(index.value), st.json[IndexPath(outputDir, category) := index]);
      var ids := IdList(index.value, reprOf);
      if ids.None? then CategoryResult(Crashed, saved, 0)
      else
        CategoryResult(Processed, ItemsStep(saved, force, server, outputDir, category, prefix, Tasks(ids.value, langs)),
                       TaskCount(ids.value, langs))
  }

  /** Scanning and saving a value the scan can take keeps the store valid. */
  lemma SavedValid(st: Store, path: string, v: Json)
    requires StoreValid(st) && Resolvable(v)
    ensures StoreValid(Store(st.urls + Collect(v), st.json[path := Some(v)]))
  {
    var json := st.json[path := Some(v)];
    forall p | p in json && json[p].Some? ensures Resolvable(json[p].value) {
      if p != path {
        assert json[p] == st.json[p];
      }
    }
  }

  lemma IndexDataResolvable(server: string -> nat -> FetchReply, indexFile: string)
    requires ServerResolvable(server) && InModelledCase(indexFile)
    ensures var index := IndexData(server, indexFile); index.Some? ==> Resolvable(index.value)
  {
    IndexFallback(server, indexFile);
    FetchedResolvable(server(Join(API_BASE, "en/" + indexFile)));
    FetchedResolvable(server(Join(API_BASE, indexFile)));
  }

  /** The size of the file at `path`, if it exists (`save_path.stat().st_size`). */
  function FileSize(files: map<string, seq<byte>>, path: string): Option<nat> {
    if path in files then Some(|files[path]|) else None
  }

  /** The body of a 200 response the server gives `url` on one of the attempts. */
  predicate ServedBody(reply: nat -> DownloadReply, body: seq<byte>) {
    exists k: nat | k < MAX_ATTEMPTS :: reply(k) == Response(200, body)
  }

  /** `save_path.with_suffix(".tmp")` for an asset URL's save path. */
  function AssetTempPath(outputDir: string, url: string): string
    requires AssetUrl(url)
  {
    AssetSavePathFacts(outputDir, url);
    TempPath(AssetSavePath(outputDir, url))
  }

  /**
    What one download of `url` does to the files: a file changes only at the
    URL's save path, and only to the body of a 200 response the server gives
    it; only the temporary file may disappear, so every file not ending in
    `.tmp` stays; and a download that gets a 200 leaves a file at the save
    path.
  */
  ghost predicate OneDownload(before: map<string, seq<byte>>, after: map<string, seq<byte>>, url: string,
                              outputDir: string, assetServer: string -> nat -> DownloadReply)
    requires AssetUrl(url)
  {
    && (forall p | p in after && !(p in before && after[p] == before[p]) ::
          p == AssetSavePath(outputDir, url) && ServedBody(assetServer(url), after[p]))
    && (forall p | p in before && p !in after :: p == AssetTempPath(outputDir, url))
    && (forall p | p in before && !EndsWith(p, ".tmp") :: p in after)
    && (DownloadFrom(assetServer(url), 0).ok ==> AssetSavePath(outputDir, url) in after)
  }

  /** `download_file` at an asset URL's save path is one download in the sense of `OneDownload`. */
  lemma DownloadFileIsOneDownload(files: map<string, seq<byte>>, url: string, outputDir: string, force: bool,
                                  assetServer: string -> nat -> DownloadReply)
    requires AssetUrl(url)
    ensures (AssetSavePathFacts(outputDir, url);
             var savePath := AssetSavePath(outputDir, url);
             var d := DownloadRule(FileSize(files, savePath), force, assetServer(url));
             OneDownload(files, if d.stored.Some? then Commit(files, savePath, d.stored.value) else files,
                         url, outputDir, assetServer))
  {
    AssetSavePathFacts(outputDir, url);
    var savePath := AssetSavePath(outputDir, url);
    var d := DownloadRule(FileSize(files, savePath), force, assetServer(url));
    DownloadRuleDecided(FileSize(files, savePath), force, assetServer(url));
    if d.stored.Some? {
      CommitStoresWholeBody(files, savePath, d.stored.value);
      CommitKeepsFinalFiles(files, savePath, d.stored.value);
      assert ServedBody(assetServer(url), d.stored.value);
    }
  }

  /**
    From `before` to `after`, the downloads of `urls` changed a file only at
    the save path of one of them, and only to the body of a 200 response the
    server gives that URL; a file disappeared only as the temporary file of
    such a path, and every file not ending in `.tmp` is still there.
  */
  ghost predicate DownloadedFrom(before: map<string, seq<byte>>, after: map<string, seq<byte>>, urls: set<string>,
                                 outputDir: string, assetServer: string -> nat -> DownloadReply)
  {
    && (forall p | p in after && !(p in before && after[p] == before[p]) ::
          exists u | u in urls :: p == AssetSavePath(outputDir, u) && ServedBody(assetServer(u), after[p]))
    && (forall p | p in before && p !in after ::
          exists u | u in urls && AssetUrl(u) :: p == AssetTempPath(outputDir, u))
    && (forall p | p in before && !EndsWith(p, ".tmp") :: p in after)
  }

  /** One more download of a URL in `urls`, as `_download_wrapper` promises it, keeps `DownloadedFrom`. */
  lemma DownloadedFromStep(before: map<string, seq<byte>>, mid: map<string, seq<byte>>, after: map<string, seq<byte>>,
                           urls: set<string>, url: string, outputDir: string, assetServer: string -> nat -> DownloadReply)
    requires DownloadedFrom(before, mid, urls, outputDir, assetServer) && url in urls && AssetUrl(url)
    requires OneDownload(mid, after, url, outputDir, assetServer)
    ensures DownloadedFrom(before, after, urls, outputDir, assetServer)
  {
    forall p | p in after && !(p in before && after[p] == before[p])
      ensures exists u | u in urls :: p == AssetSavePath(outputDir, u) && ServedBody(assetServer(u), after[p])
    {
      if !(p in mid && after[p] == mid[p]) {
        assert p == AssetSavePath(outputDir, url) && ServedBody(assetServer(url), after[p]);
      }
    }
    forall p | p in before && p !in after
      ensures exists u | u in urls && AssetUrl(u) :: p == AssetTempPath(outputDir, u)
    {
      if p in mid {
        assert p == AssetTempPath(outputDir, url);
      }
    }
  }

  /** Every URL of `done` whose download gets a 200 has a file at its save path. */
  ghost predicate ServedSaved(files: map<string, seq<byte>>, done: set<string>,
                              outputDir: string, assetServer: string -> nat -> DownloadReply)
  {
    forall u | u in done && DownloadFrom(assetServer(u), 0).ok :: AssetSavePath(outputDir, u) in files
  }

  /**
    One more download keeps the files of the earlier ones: their save paths
    do not end in `.tmp`, and a download removes nothing else.
  */
  lemma ServedSavedStep(mid: map<string, seq<byte>>, after: map<string, seq<byte>>, done: set<string>, url: string,
                        outputDir: string, assetServer: string -> nat -> DownloadReply)
    requires ServedSaved(mid, done, outputDir, assetServer) && (forall u | u in done :: AssetUrl(u)) && AssetUrl(url)
    requires OneDownload(mid, after, url, outputDir, assetServer)
    ensures ServedSaved(after, done + {url}, outputDir, assetServer)
  {
    forall u | u in done && DownloadFrom(assetServer(u), 0).ok ensures AssetSavePath(outputDir, u) in after {
      AssetSavePathFacts(outputDir, u);
    }
  }

  /** How `process_category` ends. */
  datatype CategoryOutcome =
    | IndexMissing  // both index requests gave nothing truthy
    | Crashed       // a list element that is not a dict: `x.get` raises
    | Processed

  // ---------------------------------------------------------------------------
  // The spider

  class HakushinSpider {

    const outputDir: string
    const langs: seq<string>
    const force: bool

    /** The server: its reply to each attempt of a JSON request, by URL. */
    const jsonServer: string -> nat -> FetchReply
    /** The server: its reply to each attempt of an asset request, by URL. */
    const assetServer: string -> nat -> DownloadReply
    /** The text `str()` gives a list or dict. */
    const reprOf: Json -> string

    var globalImageUrls: set<string>
    var jsonFiles: map<string, Option<Json>>
    var binaryFiles: map<string, seq<byte>>
    /** The JSON progress bar's total and count. */
    var progressTotal: nat
    var progressDone: nat
    /** The asset progress bar's total and count. */
    var assetTotal: nat
    var assetDone: nat

    function CurrentStore(): Store
      reads this
    {
      Store(globalImageUrls, jsonFiles)
    }

    ghost predicate Valid()
      reads this
    {
      ServerResolvable(jsonServer) && StoreValid(CurrentStore())
    }

    /** `HakushinSpider(output_dir, langs, force)` over a server and the files already on disk. */
    constructor (outputDir: string, langs: seq<string>, force: bool,
                 jsonServer: string -> nat -> FetchReply, assetServer: string -> nat -> DownloadReply,
                 reprOf: Json -> string, jsonFiles: map<string, Option<Json>>, binaryFiles: map<string, seq<byte>>)
      requires ServerResolvable(jsonServer)
      requires forall p | p in jsonFiles && jsonFiles[p].Some? :: Resolvable(jsonFiles[p].value)
      ensures Valid()
      ensures this.outputDir == outputDir && this.langs == langs && this.force == force
      ensures this.jsonServer == jsonServer && this.assetServer == assetServer && this.reprOf == reprOf
      ensures globalImageUrls == {} && this.jsonFiles == jsonFiles && this.binaryFiles == binaryFiles
      ensures progressTotal == 0 && progressDone == 0 && assetTotal == 0 && assetDone == 0
    {
      this.outputDir := outputDir;
      this.langs := langs;
      this.force := force;
      this.jsonServer := jsonServer;
      this.assetServer := assetServer;
      this.reprOf := reprOf;
      this.jsonFiles := jsonFiles;
      this.binaryFiles := binaryFiles;
      globalImageUrls := {};
      progressTotal := 0;
      progressDone := 0;
      assetTotal := 0;
      assetDone := 0;
    }

    /** `fetch_json(url)`: up to three attempts; a 404 or a parsed body ends the loop. */
    method FetchJson(url: string) returns (r: Option<Json>, ghost attempts: nat)
      ensures Fetched(r, attempts) == FetchRule(jsonServer(url))
    {
      var reply := jsonServer(url);
      for attempt := 0 to MAX_ATTEMPTS
        invariant attempt < MAX_ATTEMPTS ==> FetchRule(reply) == FetchFrom(reply, attempt)
        invariant attempt == MAX_ATTEMPTS ==> FetchRule(reply) == Fetched(None, MAX_ATTEMPTS)
      {
        match reply(attempt)
        case NotFound =>
          return None, attempt + 1;
        case Parsed(v) =>
          return Some(v), attempt + 1;
        case Failed =>
          if attempt == MAX_ATTEMPTS - 1 {
            return None, attempt + 1;
          }
      }
      return None, MAX_ATTEMPTS;
    }

    /**
      `download_file(url, save_path)`: a non-empty file already there is kept
      unless forced; otherwise up to three attempts, the body of a 200
      response written to the temporary file that then replaces the file.
    */
    method DownloadFile(url: string, savePath: string) returns (ok: bool, ghost attempts: nat)
      requires Last(Split(savePath, '/')) != []
      modifies this`binaryFiles
      ensures var d := DownloadRule(FileSize(old(binaryFiles), savePath), force, assetServer(url));
              && ok == d.ok && attempts == d.attempts
              && binaryFiles == if d.stored.Some? then Commit(old(binaryFiles), savePath, d.stored.value) else old(binaryFiles)
    {
      if savePath in binaryFiles && !force {
        if |binaryFiles[savePath]| > 0 {
          return true, 0;
        }
      }
      var reply := assetServer(url);
      for attempt := 0 to MAX_ATTEMPTS
        invariant binaryFiles == old(binaryFiles)
        invariant attempt < MAX_ATTEMPTS ==> DownloadFrom(reply, 0) == DownloadFrom(reply, attempt)
        invariant attempt == MAX_ATTEMPTS ==> DownloadFrom(reply, 0) == Downloaded(false, MAX_ATTEMPTS, None)
      {
        match reply(attempt)
        case Response(status, body) =>
          if status != 200 {
            return false, attempt + 1;
          }
          var tempPath := TempPath(savePath);
          binaryFiles := binaryFiles[tempPath := body];
          if tempPath in binaryFiles {
            binaryFiles := Replace(binaryFiles, tempPath, savePath);
          }
          return true, attempt + 1;
        case Broken =>
          if attempt == MAX_ATTEMPTS - 1 {
            return false, attempt + 1;
          }
      }
      return false, MAX_ATTEMPTS;
    }

    /** `extract_images_from_data(data)`: add the URL of every candidate string in `data`. */
    method ExtractImagesFromData(data: Json)
      requires Resolvable(data)
      modifies this`globalImageUrls
      ensures globalImageUrls == old(globalImageUrls) + Collect(data)
      decreases data
    {
      match data
      case Obj(members) =>
        for i := 0 to |members|
          invariant globalImageUrls == old(globalImageUrls) + CollectMembers(members[..i])
        {
          ExtractImagesFromData(members[i].value);
          CollectMembersStep(members, i);
        }
        assert members[..|members|] == members;
      case Arr(items) =>
        for i := 0 to |items|
          invariant globalImageUrls == old(globalImageUrls) + CollectItems(items[..i])
        {
          ExtractImagesFromData(items[i]);
          CollectItemsStep(items, i);
        }
        assert items[..|items|] == items;
      case Str(s) =>
        // A candidate string adds the URL it resolves to, if any.
        globalImageUrls := globalImageUrls + FromLeaf(s);
      case _ =>
    }

    /** `process_single_item(category, prefix, item_id, lang)`. */
    method ProcessSingleItem(category: string, prefix: string, itemId: string, lang: string) returns (ghost requests: nat)
      requires Valid()
      modifies this`globalImageUrls, this`jsonFiles, this`progressDone
      ensures Valid()
      ensures CurrentStore() == ItemStep(old(CurrentStore()), force, jsonServer(DetailUrl(lang, prefix, itemId)),
                                         DetailPath(outputDir, category, lang, itemId))
      ensures requests == ItemRequests(old(CurrentStore()), force, jsonServer(DetailUrl(lang, prefix, itemId)),
                                       DetailPath(outputDir, category, lang, itemId))
      ensures progressDone == old(progressDone) + 1
    {
      requests := 0;
      var url := DetailUrl(lang, prefix, itemId);
      var savePath := DetailPath(outputDir, category, lang, itemId);
      FetchedResolvable(jsonServer(url));
      var data: Option<Json> := None;
      if savePath in jsonFiles && !force {
        data := jsonFiles[savePath];
      }
      if !IsTruthy(data) {
        data, requests := FetchJson(url);
        if IsTruthy(data) {
          jsonFiles := jsonFiles[savePath := data];
        }
      }
      if IsTruthy(data) {
        ExtractImagesFromData(data.value);
      }
      progressDone := progressDone + 1;
    }

    /**
      `process_category(category_name, index_file, detail_prefix)`: fetch the
      index, scan and save it, list its identifiers, add one progress step
      per identifier and language, and process every detail.
    */
    method ProcessCategory(categoryName: string, indexFile: string, detailPrefix: string) returns (outcome: CategoryOutcome)
      requires Valid() && InModelledCase(indexFile)
      modifies this`globalImageUrls, this`jsonFiles, this`progressTotal, this`progressDone
      ensures Valid()
      ensures var r := CategoryStep(old(CurrentStore()), force, jsonServer, reprOf, langs, outputDir,
                                    categoryName, indexFile, detailPrefix);
              && outcome == r.outcome && CurrentStore() == r.store
              && progressTotal == old(progressTotal) + r.added
              && progressDone == old(progressDone) + r.added
    {
      ghost var start := CurrentStore();
      ghost var r := CategoryStep(start, force, jsonServer, reprOf, langs, outputDir, categoryName, indexFile, detailPrefix);
      var indexData := FetchIndex(indexFile);
      if !IsTruthy(indexData) {
        assert r == CategoryResult(IndexMissing, start, 0);
        return IndexMissing;
      }
      SavedValid(start, IndexPath(outputDir, categoryName), indexData.value);
      ExtractImagesFromData(indexData.value);
      jsonFiles := jsonFiles[IndexPath(outputDir, categoryName) := indexData];
      ghost var saved := CurrentStore();
      assert saved == Store(start.urls + Collect(indexData.value), start.json[IndexPath(outputDir, categoryName) := indexData]);
      var ids := IdList(indexData.value, reprOf);
      if ids.None? {
        assert r == CategoryResult(Crashed, saved, 0);
        return Crashed;
      }
      progressTotal := progressTotal + TaskCount(ids.value, langs);
      var tasks := FanOut(ids.value, langs);
      assert r == CategoryResult(Processed, ItemsStep(saved, force, jsonServer, outputDir, categoryName, detailPrefix, tasks),
                                 TaskCount(ids.value, langs));
      RunDetails(categoryName, detailPrefix, tasks);
      return Processed;
    }

    /** The index request of `process_category`: the `en/` index, then the unqualified one. */
    method FetchIndex(indexFile: string) returns (index: Option<Json>)
      requires Valid() && InModelledCase(indexFile)
      ensures index == IndexData(jsonServer, indexFile)
      ensures index.Some? ==> Resolvable(index.value)
    {
      IndexFallback(jsonServer, indexFile);
      IndexDataResolvable(jsonServer, indexFile);
      ghost var attempts;
      index, attempts := FetchJson(Join(API_BASE, "en/" + indexFile));
      if !IsTruthy(index) {
        index, attempts := FetchJson(Join(API_BASE, indexFile));
      }
    }

    /** `asyncio.gather(*tasks)` over the detail tasks, run one after another. */
    method RunDetails(category: string, prefix: string, tasks: seq<Task>)
      requires Valid()
      modifies this`globalImageUrls, this`jsonFiles, this`progressDone
      ensures Valid()
      ensures CurrentStore() == ItemsStep(old(CurrentStore()), force, jsonServer, outputDir, category, prefix, tasks)
      ensures progressDone == old(progressDone) + |tasks|
    {
      for i := 0 to |tasks|
        invariant Valid()
        invariant CurrentStore() == ItemsStep(old(CurrentStore()), force, jsonServer, outputDir, category, prefix, tasks[..i])
        invariant progressDone == old(progressDone) + i
      {
        ghost var requests := ProcessSingleItem(category, prefix, tasks[i].itemId, tasks[i].lang);
        assert tasks[..i + 1][..i] == tasks[..i];
      }
      assert tasks[..|tasks|] == tasks;
    }

    /**
      `download_all_images()`: every collected URL is downloaded to
      `assets/<file name>`, in the set's own order, under a progress bar of
      one step per URL. A file changes only at an asset path, and only to the
      body of a 200 response for a URL with that file name; no file but a
      temporary one disappears; and whatever the order, every URL whose
      download gets a 200 ends with a file at its save path.
    */
    method DownloadAllImages()
      requires Valid()
      modifies this`binaryFiles, this`assetTotal, this`assetDone
      ensures globalImageUrls == {} ==> binaryFiles == old(binaryFiles) && assetTotal == old(assetTotal) && assetDone == old(assetDone)
      ensures globalImageUrls != {} ==> assetTotal == |globalImageUrls| && assetDone == assetTotal
      ensures DownloadedFrom(old(binaryFiles), binaryFiles, globalImageUrls, outputDir, assetServer)
      ensures ServedSaved(binaryFiles, globalImageUrls, outputDir, assetServer)
    {
      if globalImageUrls == {} {
        return;
      }
      assetTotal, assetDone := |globalImageUrls|, 0;
      var pending := globalImageUrls;
      assert DownloadedFrom(binaryFiles, binaryFiles, globalImageUrls, outputDir, assetServer);
      while pending != {}
        invariant pending <= globalImageUrls
        invariant assetDone + |pending| == assetTotal == |globalImageUrls|
        invariant DownloadedFrom(old(binaryFiles), binaryFiles, globalImageUrls, outputDir, assetServer)
        invariant ServedSaved(binaryFiles, globalImageUrls - pending, outputDir, assetServer)
        decreases |pending|
      {
        var url :| url in pending;
        var savePath := AssetSavePath(outputDir, url);
        ghost var mid := binaryFiles;
        DownloadWrapper(url, savePath);
        DownloadedFromStep(old(binaryFiles), mid, binaryFiles, globalImageUrls, url, outputDir, assetServer);
        ServedSavedStep(mid, binaryFiles, globalImageUrls - pending, url, outputDir, assetServer);
        assert globalImageUrls - (pending - {url}) == (globalImageUrls - pending) + {url};
        pending := pending - {url};
      }
      assert globalImageUrls - pending == globalImageUrls;
    }

    /**
      `_download_wrapper(url, path)`: one `download_file`, then one step of
      the asset progress bar.
    */
    method DownloadWrapper(url: string, savePath: string)
      requires Valid() && url in globalImageUrls && savePath == AssetSavePath(outputDir, url)
      modifies this`binaryFiles, this`assetDone
      ensures var d := DownloadRule(FileSize(old(binaryFiles), savePath), force, assetServer(url));
              binaryFiles == if d.stored.Some? then Commit(old(binaryFiles), savePath, d.stored.value) else old(binaryFiles)
      ensures assetDone == old(assetDone) + 1
      ensures AssetUrl(url) && OneDownload(old(binaryFiles), binaryFiles, url, outputDir, assetServer)
    {
      AssetSavePathFacts(outputDir, url);
      var ok;
      ghost var attempts;
      ok, attempts := DownloadFile(url, savePath);
      assetDone := assetDone + 1;
      DownloadFileIsOneDownload(old(binaryFiles), url, outputDir, force, assetServer);
    }
  }
}
