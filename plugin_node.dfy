/**
 * plugins/gatsby-plugin-groq/gatsby-node.js: the earlier copy of the
 * pipeline.  The cache directory is chosen by environment and only created
 * when missing (entries of earlier runs stay), each file contributes at
 * most one static query (the last call site's first quasi, evaluated
 * without fragments), nothing stops the extraction pass early, and the
 * page refresh has no `try`: a `runQuery` that resolves to undefined sets
 * `data` to undefined.
 */
module PluginNode {
  import opened Core
  import opened Text
  import opened Interpolation
  import opened Extract
  import opened Store
  import opened Pages
  import PluginIndex
  import RootNode
  import Fragments

  /**
   * `processFileStaticQuery`: the hash of the static query text and the
   * JSON of its result (None for undefined), or None when the file has no
   * marker, does not parse, its traversal throws or finds no text.
   */
  function StaticQueryOf(file: SourceFile, engine: Engine, hash: Hasher): (r: Option<(Key, Option<string>)>)
    ensures r.Some? <==> Contains(file.contents, HookName) && file.ast.Some? && StaticQueryText(file.ast.value).Some?
    ensures r.Some? ==> r.value.0 == hash(Str(StaticQueryText(file.ast.value).value))
    ensures r.Some? ==> r.value.1 == PluginIndex.RunQueryResult(StaticQueryText(file.ast.value).value, None, engine)
  {
    if !Contains(file.contents, HookName) || file.ast.None? then None
    else match StaticQueryText(file.ast.value)
      case None => None
      case Some(q) => Some((hash(Str(q)), PluginIndex.RunQueryResult(q, None, engine)))
  }

  method ProcessFileStaticQuery(file: SourceFile, engine: Engine, hash: Hasher) returns (r: Option<(Key, Option<string>)>)
    ensures r == StaticQueryOf(file, engine, hash)
  {
    if !Contains(file.contents, HookName) || file.ast.None? {
      return None;
    }
    var staticQuery := FindLastStaticQuery(file.ast.value);
    if staticQuery.None? {
      return None;
    }
    var key := hash(Str(staticQuery.value));
    var result := PluginIndex.RunQuery(staticQuery.value, None, engine);
    r := Some((key, result));
  }

  /** The static write: none when there is no query, or when its JSON is undefined (the write fails). */
  function StaticWrite(dir: Dir, staticQuery: Option<(Key, Option<string>)>): seq<CacheWrite> {
    match staticQuery
    case Some((key, Some(json))) => [CacheWrite(ResultPath(dir, key), JsonEntry(json))]
    case _ => []
  }

  /** What the change handler writes for a file: its page entry, then its static result. */
  function ChangeWrites(file: SourceFile, engine: Engine, hash: Hasher, dir: Dir): seq<CacheWrite> {
    PageWrites(dir, PageQueryOf(file, hash)) + StaticWrite(dir, StaticQueryOf(file, engine, hash))
  }

  /** What one turn of the extraction loop writes: declaration files are filtered out first. */
  function FileWrites(file: SourceFile, engine: Engine, hash: Hasher, dir: Dir): seq<CacheWrite> {
    if IsDeclarationFile(file.path) then [] else ChangeWrites(file, engine, hash, dir)
  }

  /** Every write of the extraction pass, file by file; no file ends the pass. */
  function PassWrites(files: seq<SourceFile>, engine: Engine, hash: Hasher, dir: Dir): seq<CacheWrite>
    decreases |files|
  {
    if |files| == 0 then []
    else PassWrites(files[..|files| - 1], engine, hash, dir) + FileWrites(files[|files| - 1], engine, hash, dir)
  }

  method WritePageQuery(disk: Disk, dir: Dir, pageQuery: Option<(Key, Entry)>)
    requires disk.Consistent() && dir in disk.dirs
    modifies disk
    ensures disk.Consistent() && disk.dirs == old(disk.dirs)
    ensures disk.files == ApplyWrites(old(disk.files), PageWrites(dir, pageQuery))
  {
    if pageQuery.Some? {
      ApplySingle(disk.files, CacheWrite(ResultPath(dir, pageQuery.value.0), pageQuery.value.1));
      disk.WriteFile(ResultPath(dir, pageQuery.value.0), pageQuery.value.1);
    }
  }

  method WriteStaticQuery(disk: Disk, dir: Dir, staticQuery: Option<(Key, Option<string>)>)
    requires disk.Consistent() && dir in disk.dirs
    modifies disk
    ensures disk.Consistent() && disk.dirs == old(disk.dirs)
    ensures disk.files == ApplyWrites(old(disk.files), StaticWrite(dir, staticQuery))
  {
    if staticQuery.Some? && staticQuery.value.1.Some? {
      var w := CacheWrite(ResultPath(dir, staticQuery.value.0), JsonEntry(staticQuery.value.1.value));
      ApplySingle(disk.files, w);
      disk.WriteFile(w.path, w.entry);
    }
  }

  /** One turn of the extraction loop. */
  method ProcessFile(disk: Disk, file: SourceFile, engine: Engine, hash: Hasher, dir: Dir)
    requires disk.Consistent() && dir in disk.dirs
    modifies disk
    ensures disk.Consistent() && disk.dirs == old(disk.dirs)
    ensures disk.files == ApplyWrites(old(disk.files), FileWrites(file, engine, hash, dir))
  {
    if IsDeclarationFile(file.path) {
      return;
    }
    ghost var start := disk.files;
    var pageQuery := ProcessFilePageQuery(file, hash);
    var staticQuery := ProcessFileStaticQuery(file, engine, hash);
    WritePageQuery(disk, dir, pageQuery);
    WriteStaticQuery(disk, dir, staticQuery);
    ApplyWritesAppend(start, PageWrites(dir, pageQuery), StaticWrite(dir, staticQuery));
  }

  /** `extractQueries`: every source file in turn. */
  method ExtractQueries(disk: Disk, files: seq<SourceFile>, engine: Engine, hash: Hasher, dir: Dir)
    requires disk.Consistent() && dir in disk.dirs
    modifies disk
    ensures disk.Consistent() && disk.dirs == old(disk.dirs)
    ensures disk.files == ApplyWrites(old(disk.files), PassWrites(files, engine, hash, dir))
  {
    ghost var start := disk.files;
    for i := 0 to |files|
      invariant disk.Consistent() && disk.dirs == old(disk.dirs)
      invariant disk.files == ApplyWrites(start, PassWrites(files[..i], engine, hash, dir))
    {
      ProcessFile(disk, files[i], engine, hash, dir);
      assert files[..i + 1][..i] == files[..i];
      ApplyWritesAppend(start, PassWrites(files[..i], engine, hash, dir), FileWrites(files[i], engine, hash, dir));
    }
    assert files[..|files|] == files;
  }

  /**
   * `resolvableExtensions` up to the watcher: create the environment's
   * cache directory when missing, load the fragments (when a fragments
   * directory is configured), then run the extraction pass, which needs no
   * fragments.
   */
  method Startup(disk: Disk, cache: GatsbyCache, root: string, env: PluginIndex.Env, fragments: Option<Registry>,
                 files: seq<SourceFile>, engine: Engine, hash: Hasher)
    requires disk.Consistent()
    modifies disk, cache
    ensures disk.Consistent() && disk.dirs == old(disk.dirs) + {PluginIndex.GroqDir(root, env)}
    ensures cache.fragments == if fragments.Some? then fragments else old(cache.fragments)
    ensures disk.files == ApplyWrites(old(disk.files), PassWrites(files, engine, hash, PluginIndex.GroqDir(root, env)))
  {
    var dir := PluginIndex.GroqDir(root, env);
    disk.EnsureDir(dir);
    if fragments.Some? {
      cache.SetFragments(fragments.value);
    }
    ExtractQueries(disk, files, engine, hash, dir);
  }

  /**
   * Startup does not clear the directory: an entry of an earlier run that
   * the pass does not rewrite is still there afterwards, unchanged.
   */
  lemma StartupKeepsEarlierEntries(old_files: Files, ws: seq<CacheWrite>, path: CachePath)
    requires path in old_files && forall k | 0 <= k < |ws| :: ws[k].path != path
    ensures path in ApplyWrites(old_files, ws) && ApplyWrites(old_files, ws)[path] == old_files[path]
  {
    ApplyWritesAt(old_files, ws, path);
  }

  /**
   * `pageQueryToContext`: the page with `data` set to the result of the
   * interpolated stored query, undefined when `runQuery` resolves to
   * undefined; None when reading the entry throws (no entry, or not a page
   * entry).
   */
  function RefreshedPage(page: Page, entry: Option<Entry>, fragments: Option<Registry>, engine: Engine): (r: Option<Page>)
    ensures r.Some? <==> entry.Some? && entry.value.PageEntry?
    ensures r.Some? ==> r.value == page.(data := r.value.data) && r.value.data.Some?
    ensures r.Some? ==> (r.value.data.value.JsonDatum? <==>
      PluginIndex.RunQueryResult(Interpolate(entry.value.unprocessed, page.context), fragments, engine).Some?)
    ensures r.Some? && r.value.data.value.JsonDatum? ==>
      r.value.data.value.json == PluginIndex.RunQueryResult(Interpolate(entry.value.unprocessed, page.context), fragments, engine).value
  {
    if entry.None? || !entry.value.PageEntry? then None
    else match PluginIndex.RunQueryResult(Interpolate(entry.value.unprocessed, page.context), fragments, engine)
      case Some(json) => Some(page.(data := Some(JsonDatum(json))))
      case None => Some(page.(data := Some(UndefinedDatum)))
  }

  function Refresher(entry: Option<Entry>, fragments: Option<Registry>, engine: Engine): Page -> Option<Page> {
    page => RefreshedPage(page, entry, fragments, engine)
  }

  lemma RefreshIsDataOnly(entry: Option<Entry>, fragments: Option<Registry>, engine: Engine)
    ensures DataOnly(Refresher(entry, fragments, engine))
  {
  }

  /**
   * The two copies refresh a page alike whenever the later one changes it;
   * where the later one leaves the page alone because fragments are
   * missing, the earlier one sets `data` to undefined.
   */
  lemma RefreshAgreesWithRoot(page: Page, entry: Option<Entry>, fragments: Option<Registry>, engine: Engine)
    ensures RootNode.RefreshedPage(page, entry, fragments, engine).Some? ==>
      RefreshedPage(page, entry, fragments, engine) == RootNode.RefreshedPage(page, entry, fragments, engine)
    ensures RootNode.RefreshedPage(page, entry, fragments, engine).None? && entry.Some? && entry.value.PageEntry? ==>
      RefreshedPage(page, entry, fragments, engine) == Some(page.(data := Some(UndefinedDatum)))
  {
    if entry.Some? && entry.value.PageEntry? {
      PluginIndex.AgreesWithRootRunQuery(Interpolate(entry.value.unprocessed, page.context), fragments, engine);
    }
  }

  method PageQueryToContext(disk: Disk, cache: GatsbyCache, store: PageStore, path: CachePath, page: Page, engine: Engine)
    modifies store
    ensures store.pages == AfterRefresh(old(store.pages), page, RefreshedPage(page, ReadEntry(disk.files, path), cache.fragments, engine))
  {
    if path !in disk.files || !disk.files[path].PageEntry? {
      return;
    }
    var query := InterpolateContext(disk.files[path].unprocessed, page.context);
    var results := PluginIndex.RunQuery(query, cache.fragments, engine);
    var data := if results.Some? then JsonDatum(results.value) else UndefinedDatum;
    store.DeletePage(page);
    store.CreatePage(page.(data := Some(data)));
  }

  /** The loop of the change handler over the pages of the changed component. */
  method RefreshPages(disk: Disk, cache: GatsbyCache, store: PageStore, path: CachePath, component: string, engine: Engine)
    requires KeyedByPath(store.pages)
    modifies store
    ensures store.pages == RefreshAll(old(store.pages), component, Refresher(ReadEntry(disk.files, path), cache.fragments, engine))
  {
    ghost var refresh := Refresher(ReadEntry(disk.files, path), cache.fragments, engine);
    var pages := store.pages;
    var todo := pages.Keys;
    while todo != {}
      invariant todo <= pages.Keys
      invariant store.pages.Keys == pages.Keys
      invariant forall p | p in todo :: store.pages[p] == pages[p]
      invariant forall p | p in pages && p !in todo :: store.pages[p] == RefreshAll(pages, component, refresh)[p]
      decreases todo
    {
      var p :| p in todo;
      var page := pages[p];
      if page.component == component {
        PageQueryToContext(disk, cache, store, path, page, engine);
      }
      todo := todo - {p};
    }
  }

  /** The page branch of the change handler: rewrite the page entry, refresh the component's pages. */
  method ReprocessPageQuery(disk: Disk, cache: GatsbyCache, store: PageStore, file: SourceFile, engine: Engine, hash: Hasher, dir: Dir)
    requires disk.Consistent() && dir in disk.dirs && KeyedByPath(store.pages)
    modifies disk, store
    ensures disk.Consistent() && disk.dirs == old(disk.dirs)
    ensures disk.files == ApplyWrites(old(disk.files), PageWrites(dir, PageQueryOf(file, hash)))
    ensures store.pages == match PageQueryOf(file, hash)
      case None => old(store.pages)
      case Some((key, entry)) => RefreshAll(old(store.pages), file.path, Refresher(Some(entry), cache.fragments, engine))
  {
    var pageQuery := ProcessFilePageQuery(file, hash);
    WritePageQuery(disk, dir, pageQuery);
    if pageQuery.Some? {
      var path := ResultPath(dir, pageQuery.value.0);
      assert ReadEntry(disk.files, path) == Some(pageQuery.value.1);
      RefreshPages(disk, cache, store, path, file.path, engine);
    }
  }

  /**
   * The watcher's change handler for the changed file: reload the
   * fragments when the file is in the fragments directory, rewrite the
   * page entry and refresh the component's pages, then write the static
   * result; a file with neither marker changes nothing else.
   */
  method OnChange(disk: Disk, cache: GatsbyCache, store: PageStore, root: string, env: PluginIndex.Env,
                  fragmentsDir: Option<string>, reloaded: Registry, file: SourceFile, engine: Engine, hash: Hasher)
    requires disk.Consistent() && PluginIndex.GroqDir(root, env) in disk.dirs && KeyedByPath(store.pages)
    modifies disk, cache, store
    ensures disk.Consistent() && disk.dirs == old(disk.dirs)
    ensures cache.fragments == if Fragments.ReloadsFragments(fragmentsDir, file.path) then Some(reloaded) else old(cache.fragments)
    ensures disk.files == ApplyWrites(old(disk.files), ChangeWrites(file, engine, hash, PluginIndex.GroqDir(root, env)))
    ensures store.pages == match PageQueryOf(file, hash)
      case None => old(store.pages)
      case Some((key, entry)) => RefreshAll(old(store.pages), file.path, Refresher(Some(entry), cache.fragments, engine))
  {
    var dir := PluginIndex.GroqDir(root, env);
    if Fragments.ReloadsFragments(fragmentsDir, file.path) {
      cache.SetFragments(reloaded);
    }
    if !Contains(file.contents, PageMarker) && !Contains(file.contents, HookName) {
      assert ChangeWrites(file, engine, hash, dir) == [];
      return;
    }
    ghost var start := disk.files;
    ReprocessPageQuery(disk, cache, store, file, engine, hash, dir);
    var staticQuery := ProcessFileStaticQuery(file, engine, hash);
    WriteStaticQuery(disk, dir, staticQuery);
    ApplyWritesAppend(start, PageWrites(dir, PageQueryOf(file, hash)), StaticWrite(dir, staticQuery));
  }

  /** `onCreatePage`: refresh the new page when its component has a page entry. */
  method OnCreatePage(disk: Disk, cache: GatsbyCache, store: PageStore, root: string, env: PluginIndex.Env,
                      page: Page, engine: Engine, hash: Hasher)
    modifies store
    ensures store.pages == AfterRefresh(old(store.pages), page,
      RefreshedPage(page, ReadEntry(disk.files, PageEntryPath(PluginIndex.GroqDir(root, env), hash, page.component)),
                    cache.fragments, engine))
  {
    var path := PageEntryPath(PluginIndex.GroqDir(root, env), hash, page.component);
    var exists_ := disk.Exists(path);
    if !exists_ {
      return;
    }
    PageQueryToContext(disk, cache, store, path, page, engine);
  }

  /**
   * After the change handler, `useGroqQuery` in the same environment on
   * the extracted static query text (the raw first quasi of the last hook
   * call) returns the JSON that text evaluated to.  The hook's runtime
   * argument is that same text only for a template with one quasi and no
   * escapes.
   */
  lemma StaticResultRoundTrip(files: Files, file: SourceFile, engine: Engine, hash: Hasher, root: string, env: PluginIndex.Env,
                              q: string, json: string)
    requires Contains(file.contents, HookName) && file.ast.Some? && StaticQueryText(file.ast.value) == Some(q)
    requires PluginIndex.RunQueryResult(q, None, engine) == Some(json)
    ensures PluginIndex.UseGroqQuery(ApplyWrites(files, ChangeWrites(file, engine, hash, PluginIndex.GroqDir(root, env))), root, env, hash, q)
      == Some(JsonEntry(json))
  {
    var dir := PluginIndex.GroqDir(root, env);
    var page := PageWrites(dir, PageQueryOf(file, hash));
    var w := CacheWrite(ResultPath(dir, hash(Str(q))), JsonEntry(json));
    assert StaticWrite(dir, StaticQueryOf(file, engine, hash)) == [w];
    ApplyWritesAppend(files, page, [w]);
    ApplySingle(ApplyWrites(files, page), w);
  }

  /**
   * The static query text is the raw text before the first template
   * expression, so it holds the fragment marker only where the template
   * escapes it (`\${`).  Such a text runs without a registry, resolves to
   * undefined, and is not cached: only the page writes remain.
   */
  lemma StaticFragmentQueryNotCached(file: SourceFile, engine: Engine, hash: Hasher, dir: Dir)
    requires Contains(file.contents, HookName) && file.ast.Some?
    requires StaticQueryText(file.ast.value).Some? && Contains(StaticQueryText(file.ast.value).value, Fragments.Marker)
    ensures ChangeWrites(file, engine, hash, dir) == PageWrites(dir, PageQueryOf(file, hash))
  {
    assert StaticWrite(dir, StaticQueryOf(file, engine, hash)) == [];
  }

  /** Every write of a scanned file's turn is among the writes of the pass. */
  lemma {:induction false} FileWritesInPass(files: seq<SourceFile>, engine: Engine, hash: Hasher, dir: Dir, i: int, w: CacheWrite)
    requires 0 <= i < |files| && w in FileWrites(files[i], engine, hash, dir)
    ensures w in PassWrites(files, engine, hash, dir)
    decreases |files|
  {
    var init := files[..|files| - 1];
    assert PassWrites(files, engine, hash, dir) == PassWrites(init, engine, hash, dir) + FileWrites(files[|files| - 1], engine, hash, dir);
    if i < |files| - 1 {
      assert init[i] == files[i];
      FileWritesInPass(init, engine, hash, dir, i, w);
    }
  }

  /**
   * The page query of every scanned file is cached by the pass, whatever
   * the other files contain.
   */
  lemma PassCachesEveryPage(files: Files, sources: seq<SourceFile>, engine: Engine, hash: Hasher, dir: Dir, i: int)
    requires 0 <= i < |sources| && !IsDeclarationFile(sources[i].path) && PageQueryOf(sources[i], hash).Some?
    ensures PageEntryPath(dir, hash, sources[i].path) in ApplyWrites(files, PassWrites(sources, engine, hash, dir))
  {
    var w := PageWrites(dir, PageQueryOf(sources[i], hash))[0];
    assert FileWrites(sources[i], engine, hash, dir)[0] == w;
    FileWritesInPass(sources, engine, hash, dir, i, w);
    var ws := PassWrites(sources, engine, hash, dir);
    var k :| 0 <= k < |ws| && ws[k] == w;
    WrittenIsPresent(files, ws, k);
  }

  /**
   * The static result of every scanned file whose query evaluates is
   * cached by the pass, under the hash of the extracted text (the raw
   * first quasi of the last hook call).
   */
  lemma PassCachesEveryStaticResult(files: Files, sources: seq<SourceFile>, engine: Engine, hash: Hasher,
                                    root: string, env: PluginIndex.Env, i: int, q: string)
    requires 0 <= i < |sources| && !IsDeclarationFile(sources[i].path)
    requires Contains(sources[i].contents, HookName) && sources[i].ast.Some? && StaticQueryText(sources[i].ast.value) == Some(q)
    requires PluginIndex.RunQueryResult(q, None, engine).Some?
    ensures PluginIndex.UseGroqQuery(ApplyWrites(files, PassWrites(sources, engine, hash, PluginIndex.GroqDir(root, env))), root, env, hash, q).Some?
  {
    var dir := PluginIndex.GroqDir(root, env);
    var w := CacheWrite(ResultPath(dir, hash(Str(q))), JsonEntry(PluginIndex.RunQueryResult(q, None, engine).value));
    var fw := FileWrites(sources[i], engine, hash, dir);
    assert StaticWrite(dir, StaticQueryOf(sources[i], engine, hash)) == [w];
    assert w in fw;
    FileWritesInPass(sources, engine, hash, dir, i, w);
    var ws := PassWrites(sources, engine, hash, dir);
    var k :| 0 <= k < |ws| && ws[k] == w;
    WrittenIsPresent(files, ws, k);
  }
}
