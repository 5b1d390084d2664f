/**
 * gatsby-node.js: startup (cache reset, options, fragments, extraction),
 * the extraction pass over all source files, the watcher's change handler,
 * `onCreatePage`, and the page refresh `pageQueryToContext`.
 *
 * Two defects of the file are modelled both as written and corrected,
 * selected by a `Version`: the static-query key hashes a field `runQuery`
 * never returns, and a falsy static result returns from the whole pass.
 */
module RootNode {
  import opened Core
  import opened Text
  import opened Fragments
  import opened Interpolation
  import opened Extract
  import opened Store
  import opened Pages
  import opened RootIndex

  /** One element of `processFileStaticQueries`' result: `{hash, json}`, json None for `undefined`. */
  datatype StaticResult = StaticResult(hash: Key, json: Option<string>)

  /**
   * What `processFileStaticQueries` resolves to: undefined or null when
   * there is nothing to do, a rejection when a `runQuery` resolves to
   * undefined (destructuring it throws), or the results.
   */
  datatype StaticOutcome = NoStaticQueries | StaticThrew | StaticResults(results: seq<StaticResult>)

  /**
   * Which behaviour of the two defects the pipeline follows.  `AsWritten`
   * keys a static result by the hash of `queryToHash` and lets a falsy
   * static result return from the whole extraction pass; `Corrected` keys
   * it by the hash of the final query text and lets a falsy result end
   * only that file's static writes.
   */
  datatype Version = AsWritten | Corrected

  /**
   * The `{hash, json}` of one `runQuery` outcome.  `queryToHash` is a
   * field `runQuery` never returns, so as written the key is the hash of
   * `undefined`.  A failed evaluation destructures to undefined fields.
   */
  function StaticResultFor(version: Version, hash: Hasher, out: RunOutcome): (r: StaticResult)
    ensures out.Evaluated? <==> r.json.Some?
    ensures out.Evaluated? ==> r.json == Some(out.result)
    ensures version == AsWritten || out.Failed? ==> r.hash == hash(Undefined)
  {
    match out
    case Evaluated(result, finalQuery) =>
      StaticResult(if version == Corrected then hash(Str(finalQuery)) else hash(Undefined), Some(result))
    case _ => StaticResult(hash(Undefined), None)
  }

  /** Some static query makes `runQuery` resolve to undefined. */
  predicate AnyMissingFragments(qs: seq<string>, fragments: Option<Registry>, engine: Engine) {
    exists k | 0 <= k < |qs| :: RunQueryOutcome(qs[k], fragments, engine).MissingFragments?
  }

  /** The `{hash, json}` of each static query. */
  function StaticResultsFor(version: Version, qs: seq<string>, fragments: Option<Registry>, engine: Engine, hash: Hasher): (rs: seq<StaticResult>)
    ensures |rs| == |qs|
  {
    seq(|qs|, k requires 0 <= k < |qs| => StaticResultFor(version, hash, RunQueryOutcome(qs[k], fragments, engine)))
  }

  /** What `processFileStaticQueries` resolves to. */
  function StaticOutcomeOf(version: Version, file: SourceFile, fragments: Option<Registry>, engine: Engine, hash: Hasher): StaticOutcome {
    if !Contains(file.contents, HookName) || file.ast.None? || |HookArgs(file.ast.value)| == 0 then NoStaticQueries
    else
      var qs := StaticQueries(file.contents, file.ast.value);
      if AnyMissingFragments(qs, fragments, engine) then StaticThrew
      else StaticResults(StaticResultsFor(version, qs, fragments, engine, hash))
  }

  /** The loop of `processFileStaticQueries` over the extracted texts. */
  method RunStaticQueries(version: Version, qs: seq<string>, fragments: Option<Registry>, engine: Engine, hash: Hasher)
    returns (outcome: StaticOutcome)
    ensures AnyMissingFragments(qs, fragments, engine) ==> outcome == StaticThrew
    ensures !AnyMissingFragments(qs, fragments, engine) ==> outcome == StaticResults(StaticResultsFor(version, qs, fragments, engine, hash))
  {
    var results: seq<StaticResult> := [];
    for i := 0 to |qs|
      invariant !AnyMissingFragments(qs[..i], fragments, engine)
      invariant results == StaticResultsFor(version, qs[..i], fragments, engine, hash)
    {
      var out := RunQuery(qs[i], fragments, engine);
      if out.MissingFragments? {
        assert qs[i] == qs[..i + 1][i];
        assert AnyMissingFragments(qs[..i + 1], fragments, engine);
        MissingFragmentsExtends(qs[..i + 1], qs[i + 1..], fragments, engine);
        assert qs[..i + 1] + qs[i + 1..] == qs;
        return StaticThrew;
      }
      StaticResultsSnoc(version, qs[..i], qs[i], fragments, engine, hash);
      assert qs[..i] + [qs[i]] == qs[..i + 1];
      results := results + [StaticResultFor(version, hash, out)];
    }
    assert qs[..|qs|] == qs;
    outcome := StaticResults(results);
  }

  lemma MissingFragmentsExtends(a: seq<string>, b: seq<string>, fragments: Option<Registry>, engine: Engine)
    requires AnyMissingFragments(a, fragments, engine)
    ensures AnyMissingFragments(a + b, fragments, engine)
  {
    var k :| 0 <= k < |a| && RunQueryOutcome(a[k], fragments, engine).MissingFragments?;
    assert (a + b)[k] == a[k];
  }

  lemma StaticResultsSnoc(version: Version, qs: seq<string>, q: string, fragments: Option<Registry>, engine: Engine, hash: Hasher)
    requires !AnyMissingFragments(qs, fragments, engine) && !RunQueryOutcome(q, fragments, engine).MissingFragments?
    ensures !AnyMissingFragments(qs + [q], fragments, engine)
    ensures StaticResultsFor(version, qs + [q], fragments, engine, hash)
      == StaticResultsFor(version, qs, fragments, engine, hash) + [StaticResultFor(version, hash, RunQueryOutcome(q, fragments, engine))]
  {
    var qs' := qs + [q];
    forall k | 0 <= k < |qs'| ensures !RunQueryOutcome(qs'[k], fragments, engine).MissingFragments? {
      if k < |qs| {
        assert qs'[k] == qs[k];
      }
    }
  }

  method ProcessFileStaticQueries(version: Version, file: SourceFile, fragments: Option<Registry>, engine: Engine, hash: Hasher)
    returns (outcome: StaticOutcome)
    ensures outcome == StaticOutcomeOf(version, file, fragments, engine, hash)
  {
    if !Contains(file.contents, HookName) || file.ast.None? {
      return NoStaticQueries;
    }
    var staticQueries := FindStaticQueries(file.contents, file.ast.value);
    if |staticQueries| == 0 {
      return NoStaticQueries;
    }
    outcome := RunStaticQueries(version, staticQueries, fragments, engine, hash);
  }

  /** `!hash || !json`. */
  predicate Falsy(r: StaticResult) {
    r.hash == 0 || r.json.None? || r.json == Some("")
  }

  /**
   * The writes of the static loop and whether it met a falsy result: one
   * write per result, in order, up to the first falsy one.
   */
  function StaticWrites(dir: Dir, results: seq<StaticResult>): (r: (seq<CacheWrite>, bool))
    ensures |r.0| <= |results|
    ensures forall j | 0 <= j < |r.0| ::
      !Falsy(results[j]) && r.0[j] == CacheWrite(ResultPath(dir, results[j].hash), JsonEntry(results[j].json.value))
    ensures r.1 <==> |r.0| < |results|
    ensures r.1 ==> Falsy(results[|r.0|])
    decreases |results|
  {
    if |results| == 0 then ([], false)
    else if Falsy(results[0]) then ([], true)
    else
      var rest := StaticWrites(dir, results[1..]);
      var w := CacheWrite(ResultPath(dir, results[0].hash), JsonEntry(results[0].json.value));
      assert forall j | 0 <= j < |rest.0| :: ([w] + rest.0)[j + 1] == rest.0[j] && results[1..][j] == results[j + 1];
      assert rest.1 ==> results[1..][|rest.0|] == results[|rest.0| + 1];
      ([w] + rest.0, rest.1)
  }

  /** What one turn of the extraction loop writes, whether it met a falsy static result, whether it threw. */
  datatype FileStep = FileStep(writes: seq<CacheWrite>, metFalsy: bool, threw: bool)

  function FileStepOf(version: Version, file: SourceFile, fragments: Option<Registry>, engine: Engine, hash: Hasher, dir: Dir): FileStep {
    if IsDeclarationFile(file.path) then FileStep([], false, false)
    else match StaticOutcomeOf(version, file, fragments, engine, hash)
      case StaticThrew => FileStep([], false, true)
      case NoStaticQueries => FileStep(PageWrites(dir, PageQueryOf(file, hash)), false, false)
      case StaticResults(results) =>
        var sw := StaticWrites(dir, results);
        FileStep(PageWrites(dir, PageQueryOf(file, hash)) + sw.0, sw.1, false)
  }

  /** The turn ends the pass: a throw always, a falsy static result only as written. */
  predicate EndsPass(version: Version, step: FileStep) {
    step.threw || (version == AsWritten && step.metFalsy)
  }

  /** Every write of the extraction pass, file by file, up to the turn that ends it. */
  function PassWrites(version: Version, files: seq<SourceFile>, fragments: Option<Registry>, engine: Engine, hash: Hasher, dir: Dir): seq<CacheWrite>
    decreases |files|
  {
    if |files| == 0 then []
    else
      var step := FileStepOf(version, files[0], fragments, engine, hash, dir);
      if EndsPass(version, step) then step.writes
      else step.writes + PassWrites(version, files[1..], fragments, engine, hash, dir)
  }

  /** The static loop of `extractQueries` for one file's results; reports whether it met a falsy one. */
  method CacheStaticResults(disk: Disk, dir: Dir, results: seq<StaticResult>) returns (metFalsy: bool)
    requires disk.Consistent() && dir in disk.dirs
    modifies disk
    ensures disk.Consistent() && disk.dirs == old(disk.dirs)
    ensures metFalsy == StaticWrites(dir, results).1
    ensures disk.files == ApplyWrites(old(disk.files), StaticWrites(dir, results).0)
  {
    ghost var target := ApplyWrites(disk.files, StaticWrites(dir, results).0);
    var j := 0;
    while j < |results|
      invariant 0 <= j <= |results|
      invariant disk.Consistent() && disk.dirs == old(disk.dirs)
      invariant ApplyWrites(disk.files, StaticWrites(dir, results[j..]).0) == target
      invariant StaticWrites(dir, results[j..]).1 == StaticWrites(dir, results).1
    {
      var r := results[j];
      if Falsy(r) {
        return true;
      }
      ghost var w := CacheWrite(ResultPath(dir, r.hash), JsonEntry(r.json.value));
      ApplyWritesAppend(disk.files, [w], StaticWrites(dir, results[j + 1..]).0);
      ApplySingle(disk.files, w);
      assert results[j..][1..] == results[j + 1..];
      disk.WriteFile(ResultPath(dir, r.hash), JsonEntry(r.json.value));
      j := j + 1;
    }
    return false;
  }

  /** One turn of the extraction loop; reports whether the static extraction threw and whether it met a falsy result. */
  method ProcessFile(version: Version, disk: Disk, fragments: Option<Registry>, file: SourceFile, engine: Engine, hash: Hasher, dir: Dir)
    returns (threw: bool, metFalsy: bool)
    requires disk.Consistent() && dir in disk.dirs
    modifies disk
    ensures disk.Consistent() && disk.dirs == old(disk.dirs)
    ensures threw == FileStepOf(version, file, fragments, engine, hash, dir).threw
    ensures metFalsy == FileStepOf(version, file, fragments, engine, hash, dir).metFalsy
    ensures disk.files == ApplyWrites(old(disk.files), FileStepOf(version, file, fragments, engine, hash, dir).writes)
  {
    if IsDeclarationFile(file.path) {
      return false, false;
    }
    var pageQuery := ProcessFilePageQuery(file, hash);
    var staticOutcome := ProcessFileStaticQueries(version, file, fragments, engine, hash);
    if staticOutcome.StaticThrew? {
      return true, false;
    }
    ghost var start := disk.files;
    if pageQuery.Some? {
      ApplySingle(disk.files, CacheWrite(ResultPath(dir, pageQuery.value.0), pageQuery.value.1));
      disk.WriteFile(ResultPath(dir, pageQuery.value.0), pageQuery.value.1);
    }
    assert disk.files == ApplyWrites(start, PageWrites(dir, pageQuery));
    metFalsy := false;
    if staticOutcome.StaticResults? {
      metFalsy := CacheStaticResults(disk, dir, staticOutcome.results);
      ApplyWritesAppend(start, PageWrites(dir, pageQuery), StaticWrites(dir, staticOutcome.results).0);
    } else {
      assert PageWrites(dir, pageQuery) + [] == PageWrites(dir, pageQuery);
    }
    threw := false;
  }

  lemma PassWritesStep(version: Version, files: seq<SourceFile>, i: int, fragments: Option<Registry>, engine: Engine, hash: Hasher, dir: Dir, step: FileStep)
    requires 0 <= i < |files| && step == FileStepOf(version, files[i], fragments, engine, hash, dir)
    ensures EndsPass(version, step) ==> PassWrites(version, files[i..], fragments, engine, hash, dir) == step.writes
    ensures !EndsPass(version, step) ==>
      PassWrites(version, files[i..], fragments, engine, hash, dir) == step.writes + PassWrites(version, files[i + 1..], fragments, engine, hash, dir)
  {
    assert files[i..][0] == files[i];
    assert files[i..][1..] == files[i + 1..];
  }

  /** One turn of `extractQueries`' loop, stated against the writes of the rest of the pass. */
  method ExtractTurn(version: Version, disk: Disk, fragments: Option<Registry>, files: seq<SourceFile>, i: int, engine: Engine, hash: Hasher, dir: Dir)
    returns (ends: bool)
    requires 0 <= i < |files| && disk.Consistent() && dir in disk.dirs
    modifies disk
    ensures disk.Consistent() && disk.dirs == old(disk.dirs)
    ensures ends ==> disk.files == ApplyWrites(old(disk.files), PassWrites(version, files[i..], fragments, engine, hash, dir))
    ensures !ends ==>
      (ApplyWrites(disk.files, PassWrites(version, files[i + 1..], fragments, engine, hash, dir))
       == ApplyWrites(old(disk.files), PassWrites(version, files[i..], fragments, engine, hash, dir)))
  {
    ghost var step := FileStepOf(version, files[i], fragments, engine, hash, dir);
    PassWritesStep(version, files, i, fragments, engine, hash, dir, step);
    var threw, metFalsy := ProcessFile(version, disk, fragments, files[i], engine, hash, dir);
    ends := threw || (version == AsWritten && metFalsy);
    if !ends {
      ApplyWritesAppend(old(disk.files), step.writes, PassWrites(version, files[i + 1..], fragments, engine, hash, dir));
    }
  }

  /** `extractQueries`: every source file in turn, until a turn ends the pass. */
  method ExtractQueries(version: Version, disk: Disk, fragments: Option<Registry>, files: seq<SourceFile>, engine: Engine, hash: Hasher, dir: Dir)
    requires disk.Consistent() && dir in disk.dirs
    modifies disk
    ensures disk.Consistent() && disk.dirs == old(disk.dirs)
    ensures disk.files == ApplyWrites(old(disk.files), PassWrites(version, files, fragments, engine, hash, dir))
  {
    ghost var target := ApplyWrites(disk.files, PassWrites(version, files, fragments, engine, hash, dir));
    assert files[0..] == files;
    var i := 0;
    while i < |files|
      invariant 0 <= i <= |files|
      invariant disk.Consistent() && disk.dirs == old(disk.dirs)
      invariant ApplyWrites(disk.files, PassWrites(version, files[i..], fragments, engine, hash, dir)) == target
    {
      var ends := ExtractTurn(version, disk, fragments, files, i, engine, hash, dir);
      if ends {
        return;
      }
      i := i + 1;
    }
    assert files[|files|..] == [];
  }

  /** The options file written at startup. */
  function OptionsPath(dir: Dir): CachePath {
    CachePath(dir, OptionsFile)
  }

  /**
   * `resolvableExtensions` up to the watcher: reset the cache directory,
   * write the options, load the fragments (when a fragments directory is
   * configured), then run the extraction pass.
   */
  method Startup(version: Version, disk: Disk, cache: GatsbyCache, dir: Dir, options: string, fragments: Option<Registry>,
                 files: seq<SourceFile>, engine: Engine, hash: Hasher)
    requires disk.Consistent()
    modifies disk, cache
    ensures disk.Consistent() && disk.dirs == old(disk.dirs) + {dir}
    ensures cache.fragments == if fragments.Some? then fragments else old(cache.fragments)
    ensures disk.files == ApplyWrites(WithoutDir(old(disk.files), dir),
      [CacheWrite(OptionsPath(dir), JsonEntry(options))] + PassWrites(version, files, cache.fragments, engine, hash, dir))
  {
    disk.ResetDir(dir);
    ghost var cleaned := disk.files;
    ApplySingle(cleaned, CacheWrite(OptionsPath(dir), JsonEntry(options)));
    disk.WriteFile(OptionsPath(dir), JsonEntry(options));
    if fragments.Some? {
      cache.SetFragments(fragments.value);
    }
    ExtractQueries(version, disk, cache.fragments, files, engine, hash, dir);
    ApplyWritesAppend(cleaned, [CacheWrite(OptionsPath(dir), JsonEntry(options))], PassWrites(version, files, cache.fragments, engine, hash, dir));
  }

  /**
   * After startup every file in the cache directory was written by this
   * run: entries of an earlier run never survive the reset.
   */
  lemma StartupLeavesNoStaleEntry(old_files: Files, dir: Dir, ws: seq<CacheWrite>, path: CachePath)
    requires path.dir == dir && path in ApplyWrites(WithoutDir(old_files, dir), ws)
    ensures exists k | 0 <= k < |ws| :: ws[k].path == path
  {
    ApplyWritesAt(WithoutDir(old_files, dir), ws, path);
  }

  /**
   * `pageQueryToContext`: the page with `data` set from the interpolated
   * stored query, or None when the refresh throws (no page entry to read,
   * or `runQuery` resolving to undefined inside the `try`).  An evaluation
   * error sets `data` to undefined.
   */
  function RefreshedPage(page: Page, entry: Option<Entry>, fragments: Option<Registry>, engine: Engine): (r: Option<Page>)
    ensures r.None? <==> (entry.None? || !entry.value.PageEntry? ||
      RunQueryOutcome(Interpolate(entry.value.unprocessed, page.context), fragments, engine).MissingFragments?)
    ensures r.Some? ==> r.value == page.(data := r.value.data) && r.value.data.Some?
    ensures r.Some? ==> (entry.Some? && entry.value.PageEntry? &&
      (r.value.data.value.UndefinedDatum? <==>
       RunQueryOutcome(Interpolate(entry.value.unprocessed, page.context), fragments, engine).Failed?))
    ensures r.Some? && r.value.data.value.JsonDatum? ==>
      r.value.data.value.json == RunQueryOutcome(Interpolate(entry.value.unprocessed, page.context), fragments, engine).result
  {
    if entry.None? || !entry.value.PageEntry? then None
    else match RunQueryOutcome(Interpolate(entry.value.unprocessed, page.context), fragments, engine)
      case MissingFragments => None
      case Evaluated(result, _) => Some(page.(data := Some(JsonDatum(result))))
      case Failed(_) => Some(page.(data := Some(UndefinedDatum)))
  }

  function Refresher(entry: Option<Entry>, fragments: Option<Registry>, engine: Engine): Page -> Option<Page> {
    page => RefreshedPage(page, entry, fragments, engine)
  }

  /** The refresh of one page depends on everything but its `data`, and changes only `data`. */
  lemma RefreshIsDataOnly(entry: Option<Entry>, fragments: Option<Registry>, engine: Engine)
    ensures DataOnly(Refresher(entry, fragments, engine))
  {
  }

  method PageQueryToContext(disk: Disk, cache: GatsbyCache, store: PageStore, path: CachePath, page: Page, engine: Engine)
    modifies store
    ensures store.pages == AfterRefresh(old(store.pages), page, RefreshedPage(page, ReadEntry(disk.files, path), cache.fragments, engine))
  {
    if path !in disk.files || !disk.files[path].PageEntry? {
      return;
    }
    var query := InterpolateContext(disk.files[path].unprocessed, page.context);
    var out := RunQuery(query, cache.fragments, engine);
    if out.MissingFragments? {
      return;
    }
    var data := if out.Evaluated? then JsonDatum(out.result) else UndefinedDatum;
    store.DeletePage(page);
    store.CreatePage(page.(data := Some(data)));
  }

  /** The loop of the change handler over the pages of the changed component. */
  method RefreshPages(disk: Disk, cache: GatsbyCache, store: PageStore, path: CachePath, component: string, engine: Engine)
    requires KeyedByPath(store.pages)
    modifies store
    ensures store.pages == RefreshAll(old(store.pages), component, Refresher(ReadEntry(disk.files, path), cache.fragments, engine))
  {
    ghost var refresh := Refresher(ReadEntry(disk.files, path), cache.fragments, engine);
    var pages := store.pages;
    var todo := pages.Keys;
    while todo != {}
      invariant todo <= pages.Keys
      invariant store.pages.Keys == pages.Keys
      invariant forall p | p in todo :: store.pages[p] == pages[p]
      invariant forall p | p in pages && p !in todo :: store.pages[p] == RefreshAll(pages, component, refresh)[p]
      decreases todo
    {
      var p :| p in todo;
      var page := pages[p];
      if page.component == component {
        PageQueryToContext(disk, cache, store, path, page, engine);
      }
      todo := todo - {p};
    }
  }

  /** What the change handler writes: the page entry, then the static results up to the first falsy one. */
  function ChangeWrites(version: Version, file: SourceFile, fragments: Option<Registry>, engine: Engine, hash: Hasher, dir: Dir): seq<CacheWrite> {
    PageWrites(dir, PageQueryOf(file, hash)) +
      match StaticOutcomeOf(version, file, fragments, engine, hash)
      case StaticResults(results) => StaticWrites(dir, results).0
      case _ => []
  }

  /** A change to a file with neither marker writes nothing. */
  lemma UnmarkedChangeWritesNothing(version: Version, file: SourceFile, fragments: Option<Registry>, engine: Engine, hash: Hasher, dir: Dir)
    requires !Contains(file.contents, PageMarker) && !Contains(file.contents, HookName)
    ensures ChangeWrites(version, file, fragments, engine, hash, dir) == []
  {
  }

  /**
   * The watcher's change handler for the changed file (its contents as
   * read now, and the fragments module as re-required when it changed).
   */
  method OnChange(version: Version, disk: Disk, cache: GatsbyCache, store: PageStore, dir: Dir, fragmentsDir: Option<string>,
                  reloaded: Registry, file: SourceFile, engine: Engine, hash: Hasher)
    requires disk.Consistent() && dir in disk.dirs && KeyedByPath(store.pages)
    modifies disk, cache, store
    ensures disk.Consistent() && disk.dirs == old(disk.dirs)
    ensures cache.fragments == if ReloadsFragments(fragmentsDir, file.path) then Some(reloaded) else old(cache.fragments)
    ensures disk.files == ApplyWrites(old(disk.files), ChangeWrites(version, file, cache.fragments, engine, hash, dir))
    ensures store.pages == match PageQueryOf(file, hash)
      case None => old(store.pages)
      case Some((key, entry)) =>
        RefreshAll(old(store.pages), file.path, Refresher(Some(entry), cache.fragments, engine))
  {
    if ReloadsFragments(fragmentsDir, file.path) {
      cache.SetFragments(reloaded);
    }
    if !Contains(file.contents, PageMarker) && !Contains(file.contents, HookName) {
      UnmarkedChangeWritesNothing(version, file, cache.fragments, engine, hash, dir);
      assert ApplyWrites(disk.files, []) == disk.files;
      return;
    }
    ghost var start := disk.files;
    ghost var page := PageWrites(dir, PageQueryOf(file, hash));
    ghost var all := ChangeWrites(version, file, cache.fragments, engine, hash, dir);
    ReprocessPageQuery(disk, cache, store, file, engine, hash, dir);
    ReprocessStaticQueries(version, disk, cache.fragments, file, engine, hash, dir);
    ApplyWritesAppend(start, page, all[|page|..]);
    assert page + all[|page|..] == all;
  }

  /** The page branch of the change handler: rewrite the page entry, refresh the component's pages. */
  method ReprocessPageQuery(disk: Disk, cache: GatsbyCache, store: PageStore, file: SourceFile, engine: Engine, hash: Hasher, dir: Dir)
    requires disk.Consistent() && dir in disk.dirs && KeyedByPath(store.pages)
    modifies disk, store
    ensures disk.Consistent() && disk.dirs == old(disk.dirs)
    ensures disk.files == ApplyWrites(old(disk.files), PageWrites(dir, PageQueryOf(file, hash)))
    ensures store.pages == match PageQueryOf(file, hash)
      case None => old(store.pages)
      case Some((key, entry)) => RefreshAll(old(store.pages), file.path, Refresher(Some(entry), cache.fragments, engine))
  {
    var pageQuery := ProcessFilePageQuery(file, hash);
    if pageQuery.Some? {
      var path := ResultPath(dir, pageQuery.value.0);
      ApplySingle(disk.files, CacheWrite(path, pageQuery.value.1));
      disk.WriteFile(path, pageQuery.value.1);
      assert ReadEntry(disk.files, path) == Some(pageQuery.value.1);
      RefreshPages(disk, cache, store, path, file.path, engine);
    }
  }

  /** The static branch of the change handler: write the results up to the first falsy one. */
  method ReprocessStaticQueries(version: Version, disk: Disk, fragments: Option<Registry>, file: SourceFile, engine: Engine, hash: Hasher, dir: Dir)
    requires disk.Consistent() && dir in disk.dirs
    modifies disk
    ensures disk.Consistent() && disk.dirs == old(disk.dirs)
    ensures disk.files == ApplyWrites(old(disk.files),
      ChangeWrites(version, file, fragments, engine, hash, dir)[|PageWrites(dir, PageQueryOf(file, hash))|..])
  {
    var staticOutcome := ProcessFileStaticQueries(version, file, fragments, engine, hash);
    if staticOutcome.StaticResults? {
      var _ := CacheStaticResults(disk, dir, staticOutcome.results);
    }
  }

  /** `onCreatePage`: refresh the new page when its component has a page entry. */
  method OnCreatePage(disk: Disk, cache: GatsbyCache, store: PageStore, dir: Dir, page: Page, engine: Engine, hash: Hasher)
    modifies store
    ensures store.pages == AfterRefresh(old(store.pages), page,
      RefreshedPage(page, ReadEntry(disk.files, PageEntryPath(dir, hash, page.component)), cache.fragments, engine))
  {
    var path := PageEntryPath(dir, hash, page.component);
    var exists_ := disk.Exists(path);
    if !exists_ {
      return;
    }
    PageQueryToContext(disk, cache, store, path, page, engine);
  }

  /**
   * The page entry `processFilePageQuery` writes for a file is the one
   * `onCreatePage` reads for a page of that component.
   */
  lemma PageEntryRoundTrip(files: Files, file: SourceFile, hash: Hasher, dir: Dir)
    requires PageQueryOf(file, hash).Some?
    ensures ReadEntry(ApplyWrites(files, PageWrites(dir, PageQueryOf(file, hash))), PageEntryPath(dir, hash, file.path))
      == Some(PageQueryOf(file, hash).value.1)
  {
    ApplySingle(files, PageWrites(dir, PageQueryOf(file, hash))[0]);
  }

  /**
   * As written, a static result is stored under `hash(undefined)`: for any
   * hash that tells `undefined` from the query text, `useGroqQuery` on that
   * text does not find the stored result.
   */
  lemma AsWrittenStaticLookupMisses(files: Files, dir: Dir, hash: Hasher, out: RunOutcome)
    requires out.Evaluated? && hash(Undefined) != hash(Str(out.finalQuery))
    requires ResultPath(dir, hash(Str(out.finalQuery))) !in files
    ensures var r := StaticResultFor(AsWritten, hash, out);
      UseGroqQuery(files[ResultPath(dir, r.hash) := JsonEntry(r.json.value)], dir, hash, out.finalQuery) == None
  {
  }

  /** With the corrected key, `useGroqQuery` on the final query text finds the stored result. */
  lemma StaticResultRoundTrip(files: Files, dir: Dir, hash: Hasher, out: RunOutcome)
    requires out.Evaluated?
    ensures var r := StaticResultFor(Corrected, hash, out);
      UseGroqQuery(files[ResultPath(dir, r.hash) := JsonEntry(r.json.value)], dir, hash, out.finalQuery) == Some(JsonEntry(out.result))
  {
  }

  /**
   * After the corrected change handler, `useGroqQuery` on the final text of
   * a static query returns exactly its result, provided no falsy result
   * comes before it and no later static query of the file shares its key.
   */
  lemma ChangeCachesStaticQueries(files: Files, file: SourceFile, fragments: Option<Registry>, engine: Engine, hash: Hasher, dir: Dir, k: int)
    requires StaticOutcomeOf(Corrected, file, fragments, engine, hash).StaticResults?
    requires 0 <= k < |StaticOutcomeOf(Corrected, file, fragments, engine, hash).results|
    requires forall j | 0 <= j <= k :: !Falsy(StaticOutcomeOf(Corrected, file, fragments, engine, hash).results[j])
    requires forall j | k < j < |StaticOutcomeOf(Corrected, file, fragments, engine, hash).results| ::
      StaticOutcomeOf(Corrected, file, fragments, engine, hash).results[j].hash != StaticOutcomeOf(Corrected, file, fragments, engine, hash).results[k].hash
    ensures RunQueryOutcome(StaticQueries(file.contents, file.ast.value)[k], fragments, engine).Evaluated?
    ensures UseGroqQuery(ApplyWrites(files, ChangeWrites(Corrected, file, fragments, engine, hash, dir)), dir, hash,
      RunQueryOutcome(StaticQueries(file.contents, file.ast.value)[k], fragments, engine).finalQuery)
      == Some(JsonEntry(RunQueryOutcome(StaticQueries(file.contents, file.ast.value)[k], fragments, engine).result))
  {
    var results := StaticOutcomeOf(Corrected, file, fragments, engine, hash).results;
    StaticResultAt(file, fragments, engine, hash, k);
    var sw := StaticWrites(dir, results).0;
    var page := PageWrites(dir, PageQueryOf(file, hash));
    assert ChangeWrites(Corrected, file, fragments, engine, hash, dir) == page + sw;
    LastStaticWrite(page, dir, results, k);
    ApplyWritesAt(files, page + sw, ResultPath(dir, results[k].hash));
  }

  /** The `k`-th static result is that of the `k`-th static query text. */
  lemma StaticResultAt(file: SourceFile, fragments: Option<Registry>, engine: Engine, hash: Hasher, k: int)
    requires StaticOutcomeOf(Corrected, file, fragments, engine, hash).StaticResults?
    requires 0 <= k < |StaticOutcomeOf(Corrected, file, fragments, engine, hash).results|
    ensures StaticOutcomeOf(Corrected, file, fragments, engine, hash).results[k]
      == StaticResultFor(Corrected, hash, RunQueryOutcome(StaticQueries(file.contents, file.ast.value)[k], fragments, engine))
  {
    var qs := StaticQueries(file.contents, file.ast.value);
    assert StaticOutcomeOf(Corrected, file, fragments, engine, hash).results == StaticResultsFor(Corrected, qs, fragments, engine, hash);
  }

  /**
   * After a batch of earlier writes, the static writes of a file leave in
   * a result's file the JSON of that result, when no falsy result comes
   * before it and no later result shares its key.
   */
  lemma LastStaticWrite(before: seq<CacheWrite>, dir: Dir, results: seq<StaticResult>, k: int)
    requires 0 <= k < |results| && forall j | 0 <= j <= k :: !Falsy(results[j])
    requires forall j | k < j < |results| :: results[j].hash != results[k].hash
    ensures LastWrite(before + StaticWrites(dir, results).0, ResultPath(dir, results[k].hash)) == Some(JsonEntry(results[k].json.value))
  {
    var sw := StaticWrites(dir, results).0;
    var ws := before + sw;
    var path := ResultPath(dir, results[k].hash);
    assert |sw| > k;
    assert ws[|before| + k] == sw[k];
    var r := LastWrite(ws, path);
    var m :| 0 <= m < |ws| && ws[m] == CacheWrite(path, r.value) && forall j | m < j < |ws| :: ws[j].path != path;
  }

  /** A file with one static query, `x`, and no page query. */
  const StaticQueryFile: SourceFile :=
    SourceFile("a.js", "useGroqQuery(`x`)", Some([CallExpr(Some(HookName), Arg(13, 16, Some("x")))]))

  /** A file with a page query and no static query. */
  const PageQueryFile: SourceFile :=
    SourceFile("b.js", "export const groqQuery = `*`", Some([ExportNamed(PageExportName, 25, 28)]))

  function RejectingEngine(): Engine {
    q => EngineError("rejected")
  }

  lemma RejectedStaticQueryStep(version: Version, hash: Hasher, dir: Dir)
    ensures FileStepOf(version, StaticQueryFile, None, RejectingEngine(), hash, dir) == FileStep([], true, false)
  {
    var a := StaticQueryFile;
    var engine := RejectingEngine();
    assert OccursAt(a.contents, HookName, 0);
    assert a.ast.value[..0] == [];
    assert HookArgs(a.ast.value) == [Arg(13, 16, Some("x"))];
    assert ArgSpan(a.contents, Arg(13, 16, Some("x"))) == a.contents[14..15] == "x";
    var qs := StaticQueries(a.contents, a.ast.value);
    assert qs == ["x"];
    assert !Contains("x", Marker);
    assert RunQueryOutcome("x", None, engine) == Failed("rejected");
    assert !AnyMissingFragments(qs, None, engine);
    assert StaticResultsFor(version, qs, None, engine, hash) == [StaticResult(hash(Undefined), None)];
    assert !Contains(a.contents, PageMarker);
  }

  lemma PageQueryFileStep(version: Version, engine: Engine, hash: Hasher, dir: Dir)
    ensures FileStepOf(version, PageQueryFile, None, engine, hash, dir)
      == FileStep([CacheWrite(ResultPath(dir, hash(Str("b.js"))), PageEntry("`*`"))], false, false)
  {
    var b := PageQueryFile;
    assert OccursAt(b.contents, PageMarker, 0);
    var nodes := b.ast.value;
    assert nodes[..0] == [];
    assert IsPageDecl(nodes[0]);
    assert DeclSpan(b.contents, nodes[0]) == b.contents[25..28] == "`*`";
    assert LastDeclSpan(b.contents, nodes) == Some("`*`");
    assert PageQueryText(b.contents, nodes) == Some("`*`");
    assert HookArgs(nodes) == [];
    assert !IsDeclarationFile("b.js");
  }

  /**
   * As written, one rejected static query in an earlier file ends the
   * pass: the page query of a later file is never cached.  The corrected
   * pass caches it.
   */
  lemma EarlyReturnSkipsLaterFiles(hash: Hasher, dir: Dir)
    ensures PassWrites(AsWritten, [StaticQueryFile, PageQueryFile], None, RejectingEngine(), hash, dir) == []
    ensures PassWrites(Corrected, [StaticQueryFile, PageQueryFile], None, RejectingEngine(), hash, dir)
      == [CacheWrite(ResultPath(dir, hash(Str("b.js"))), PageEntry("`*`"))]
  {
    RejectedStaticQueryStep(AsWritten, hash, dir);
    RejectedStaticQueryStep(Corrected, hash, dir);
    PageQueryFileStep(Corrected, RejectingEngine(), hash, dir);
    var engine := RejectingEngine();
    var w := CacheWrite(ResultPath(dir, hash(Str("b.js"))), PageEntry("`*`"));
    assert [StaticQueryFile, PageQueryFile][1..] == [PageQueryFile];
    assert [PageQueryFile][1..] == [];
    assert PassWrites(Corrected, [PageQueryFile], None, engine, hash, dir) == [w] + [];
    assert PassWrites(Corrected, [StaticQueryFile, PageQueryFile], None, engine, hash, dir) == [] + [w];
  }

  function AcceptingEngine(): Engine {
    q => Ok("[]")
  }

  /**
   * As written, a hash that maps `undefined` to 0 makes every evaluated
   * static result falsy: the pass stops at the first file with a static
   * query even though the engine accepts it.  The corrected pass writes
   * that result under the hash of its text and goes on to the next file.
   */
  lemma ZeroUndefinedHashSkipsLaterFiles(hash: Hasher, dir: Dir)
    requires hash(Undefined) == 0 && hash(Str("x")) != 0
    ensures PassWrites(AsWritten, [StaticQueryFile, PageQueryFile], None, AcceptingEngine(), hash, dir) == []
    ensures PassWrites(Corrected, [StaticQueryFile, PageQueryFile], None, AcceptingEngine(), hash, dir)
      == [CacheWrite(ResultPath(dir, hash(Str("x"))), JsonEntry("[]")), CacheWrite(ResultPath(dir, hash(Str("b.js"))), PageEntry("`*`"))]
  {
    AcceptedStaticQueryStep(AsWritten, hash, dir);
    AcceptedStaticQueryStep(Corrected, hash, dir);
    PageQueryFileStep(Corrected, AcceptingEngine(), hash, dir);
    var engine := AcceptingEngine();
    var s := CacheWrite(ResultPath(dir, hash(Str("x"))), JsonEntry("[]"));
    var w := CacheWrite(ResultPath(dir, hash(Str("b.js"))), PageEntry("`*`"));
    assert [StaticQueryFile, PageQueryFile][1..] == [PageQueryFile];
    assert [PageQueryFile][1..] == [];
    assert PassWrites(Corrected, [PageQueryFile], None, engine, hash, dir) == [w] + [];
    assert PassWrites(Corrected, [StaticQueryFile, PageQueryFile], None, engine, hash, dir) == [s] + [w];
  }

  lemma AcceptedStaticQueryStep(version: Version, hash: Hasher, dir: Dir)
    requires hash(Undefined) == 0 && hash(Str("x")) != 0
    ensures FileStepOf(version, StaticQueryFile, None, AcceptingEngine(), hash, dir)
      == if version == AsWritten then FileStep([], true, false)
         else FileStep([CacheWrite(ResultPath(dir, hash(Str("x"))), JsonEntry("[]"))], false, false)
  {
    var a := StaticQueryFile;
    var engine := AcceptingEngine();
    assert OccursAt(a.contents, HookName, 0);
    assert a.ast.value[..0] == [];
    assert HookArgs(a.ast.value) == [Arg(13, 16, Some("x"))];
    assert ArgSpan(a.contents, Arg(13, 16, Some("x"))) == a.contents[14..15] == "x";
    var qs := StaticQueries(a.contents, a.ast.value);
    assert qs == ["x"];
    assert !Contains("x", Marker);
    assert RunQueryOutcome("x", None, engine) == Evaluated("[]", "x");
    assert !AnyMissingFragments(qs, None, engine);
    var r := StaticResultFor(version, hash, Evaluated("[]", "x"));
    assert StaticResultsFor(version, qs, None, engine, hash) == [r];
    assert !Contains(a.contents, PageMarker);
    assert [r][1..] == [];
  }

  /** A file with a page query whose static extraction does not throw writes its page entry first. */
  lemma PageWriteLeadsStep(file: SourceFile, fragments: Option<Registry>, engine: Engine, hash: Hasher, dir: Dir)
    requires !IsDeclarationFile(file.path) && PageQueryOf(file, hash).Some?
    requires !StaticOutcomeOf(Corrected, file, fragments, engine, hash).StaticThrew?
    ensures !FileStepOf(Corrected, file, fragments, engine, hash, dir).threw
    ensures PageWrites(dir, PageQueryOf(file, hash))[0] in FileStepOf(Corrected, file, fragments, engine, hash, dir).writes
  {
    var step := FileStepOf(Corrected, file, fragments, engine, hash, dir);
    var page := PageWrites(dir, PageQueryOf(file, hash));
    assert step.writes[0] == page[0];
  }

  lemma {:induction false} PageWriteInPass(files: seq<SourceFile>, fragments: Option<Registry>, engine: Engine, hash: Hasher, dir: Dir, i: int)
    requires 0 <= i < |files| && !IsDeclarationFile(files[i].path) && PageQueryOf(files[i], hash).Some?
    requires forall j | 0 <= j <= i :: !StaticOutcomeOf(Corrected, files[j], fragments, engine, hash).StaticThrew?
    ensures PageWrites(dir, PageQueryOf(files[i], hash))[0] in PassWrites(Corrected, files, fragments, engine, hash, dir)
    decreases i
  {
    var step := FileStepOf(Corrected, files[0], fragments, engine, hash, dir);
    var rest := PassWrites(Corrected, files[1..], fragments, engine, hash, dir);
    assert !StaticOutcomeOf(Corrected, files[0], fragments, engine, hash).StaticThrew?;
    assert !step.threw by {
      if !IsDeclarationFile(files[0].path) {
        assert step.threw == StaticOutcomeOf(Corrected, files[0], fragments, engine, hash).StaticThrew?;
      }
    }
    assert PassWrites(Corrected, files, fragments, engine, hash, dir) == step.writes + rest;
    if i == 0 {
      PageWriteLeadsStep(files[0], fragments, engine, hash, dir);
    } else {
      forall j | 0 <= j <= i - 1 ensures !StaticOutcomeOf(Corrected, files[1..][j], fragments, engine, hash).StaticThrew? {
        assert files[1..][j] == files[j + 1];
      }
      assert files[1..][i - 1] == files[i];
      PageWriteInPass(files[1..], fragments, engine, hash, dir, i - 1);
    }
  }

  /**
   * With the corrected exit, the page query of every scanned file is
   * cached, whatever the static queries of other files produce, unless a
   * static extraction throws first.
   */
  lemma CorrectedPassCachesEveryPage(files: Files, sources: seq<SourceFile>, fragments: Option<Registry>, engine: Engine, hash: Hasher, dir: Dir, i: int)
    requires 0 <= i < |sources| && !IsDeclarationFile(sources[i].path) && PageQueryOf(sources[i], hash).Some?
    requires forall j | 0 <= j <= i :: !StaticOutcomeOf(Corrected, sources[j], fragments, engine, hash).StaticThrew?
    ensures PageEntryPath(dir, hash, sources[i].path) in ApplyWrites(files, PassWrites(Corrected, sources, fragments, engine, hash, dir))
  {
    PageWriteInPass(sources, fragments, engine, hash, dir, i);
    var ws := PassWrites(Corrected, sources, fragments, engine, hash, dir);
    var k :| 0 <= k < |ws| && ws[k] == PageWrites(dir, PageQueryOf(sources[i], hash))[0];
    WrittenIsPresent(files, ws, k);
  }
}
