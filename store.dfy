/**
 * The state the pipeline changes: the cache directory on disk, Gatsby's
 * key-value cache holding the fragment registry, and Gatsby's page
 * registry.  `cacheQueryResults` is a write of one file; `writeFileSync`
 * overwrites, so a sequence of writes is a fold over a map.
 */
module Store {
  import opened Core

  type Files = map<CachePath, Entry>

  /** The files after `ws` are written in order. */
  function ApplyWrites(files: Files, ws: seq<CacheWrite>): Files
    decreases |ws|
  {
    if |ws| == 0 then files
    else ApplyWrites(files, ws[..|ws| - 1])[ws[|ws| - 1].path := ws[|ws| - 1].entry]
  }

  /** The entry of the last write to `path` among `ws`, if any. */
  function LastWrite(ws: seq<CacheWrite>, path: CachePath): (r: Option<Entry>)
    ensures r.None? <==> forall k | 0 <= k < |ws| :: ws[k].path != path
    ensures r.Some? ==> exists k | 0 <= k < |ws| :: ws[k] == CacheWrite(path, r.value) && forall j | k < j < |ws| :: ws[j].path != path
    decreases |ws|
  {
    if |ws| == 0 then None
    else if ws[|ws| - 1].path == path then Some(ws[|ws| - 1].entry)
    else
      var r := LastWrite(ws[..|ws| - 1], path);
      assert forall k | 0 <= k < |ws| - 1 :: ws[..|ws| - 1][k] == ws[k];
      r
  }

  /** After a sequence of writes a file holds its last write, or what it held before when never written. */
  lemma {:induction false} ApplyWritesAt(files: Files, ws: seq<CacheWrite>, path: CachePath)
    ensures LastWrite(ws, path).Some? ==> path in ApplyWrites(files, ws) && ApplyWrites(files, ws)[path] == LastWrite(ws, path).value
    ensures LastWrite(ws, path).None? ==> (path in ApplyWrites(files, ws) <==> path in files)
    ensures LastWrite(ws, path).None? && path in files ==> ApplyWrites(files, ws)[path] == files[path]
    decreases |ws|
  {
    if |ws| > 0 {
      ApplyWritesAt(files, ws[..|ws| - 1], path);
    }
  }

  /** Writing in two batches is writing their concatenation. */
  lemma {:induction false} ApplyWritesAppend(files: Files, a: seq<CacheWrite>, b: seq<CacheWrite>)
    ensures ApplyWrites(files, a + b) == ApplyWrites(ApplyWrites(files, a), b)
    decreases |b|
  {
    if |b| == 0 {
      assert a + b == a;
    } else {
      assert (a + b)[..|a + b| - 1] == a + b[..|b| - 1];
      ApplyWritesAppend(files, a, b[..|b| - 1]);
    }
  }

  /** Replaying the same writes changes nothing further. */
  lemma ApplyWritesIdempotent(files: Files, ws: seq<CacheWrite>)
    ensures ApplyWrites(ApplyWrites(files, ws), ws) == ApplyWrites(files, ws)
  {
    var once := ApplyWrites(files, ws);
    var twice := ApplyWrites(once, ws);
    forall path | path in once || path in twice
      ensures path in once && path in twice && once[path] == twice[path]
    {
      ApplyWritesAt(files, ws, path);
      ApplyWritesAt(once, ws, path);
    }
    assert once.Keys == twice.Keys;
  }

  /** The files left after a directory is removed with everything in it. */
  function WithoutDir(files: Files, dir: Dir): (r: Files)
    ensures forall path | path in r :: path.dir != dir
    ensures forall path | path in files && path.dir != dir :: path in r && r[path] == files[path]
  {
    map path | path in files && path.dir != dir :: files[path]
  }

  /** Every file written is present afterwards. */
  lemma WrittenIsPresent(files: Files, ws: seq<CacheWrite>, k: int)
    requires 0 <= k < |ws|
    ensures ws[k].path in ApplyWrites(files, ws)
  {
    ApplyWritesAt(files, ws, ws[k].path);
  }

  /** The cache file `<key>.json` of a directory. */
  function ResultPath(dir: Dir, key: Key): CachePath {
    CachePath(dir, HashFile(key))
  }

  /** The write of a page query's entry, when the file has one. */
  function PageWrites(dir: Dir, pageQuery: Option<(Key, Entry)>): seq<CacheWrite> {
    match pageQuery
    case None => []
    case Some((key, entry)) => [CacheWrite(ResultPath(dir, key), entry)]
  }

  /** The cache file of a component's page query: the hash of the component's path. */
  function PageEntryPath(dir: Dir, hash: Hasher, component: string): CachePath {
    ResultPath(dir, hash(Str(component)))
  }

  /** The cache entry `readFileSync` finds at a path. */
  function ReadEntry(files: Files, path: CachePath): Option<Entry> {
    if path in files then Some(files[path]) else None
  }

  lemma ApplySingle(files: Files, w: CacheWrite)
    ensures ApplyWrites(files, [w]) == files[w.path := w.entry]
  {
    assert [w][..0] == [];
  }

  /** The cache directory: the set of existing directories and the files in them. */
  class Disk {
    var dirs: set<Dir>
    var files: Files

    constructor(dirs: set<Dir>, files: Files)
      requires forall path | path in files :: path.dir in dirs
      ensures Consistent()
      ensures this.dirs == dirs && this.files == files
    {
      this.dirs := dirs;
      this.files := files;
    }

    /** Every file lies in an existing directory. */
    predicate Consistent()
      reads this
    {
      forall path | path in files :: path.dir in dirs
    }

    /** `rmdirSync` (recursive) when the directory exists, then `mkdirSync`: it exists and is empty. */
    method ResetDir(dir: Dir)
      requires Consistent()
      modifies this
      ensures Consistent()
      ensures dirs == old(dirs) + {dir}
      ensures files == WithoutDir(old(files), dir)
    {
      if dir in dirs {
        files := WithoutDir(files, dir);
        dirs := dirs - {dir};
      } else {
        assert files == WithoutDir(files, dir);
      }
      dirs := dirs + {dir};
    }

    /** `mkdirSync` only when `existsSync` says the directory is missing: existing files stay. */
    method EnsureDir(dir: Dir)
      requires Consistent()
      modifies this
      ensures Consistent()
      ensures dirs == old(dirs) + {dir}
      ensures files == old(files)
    {
      if dir !in dirs {
        dirs := dirs + {dir};
      }
    }

    /** `writeFileSync`: overwrites; it fails, writing nothing, when the directory is missing. */
    method WriteFile(path: CachePath, entry: Entry)
      requires Consistent()
      modifies this
      ensures Consistent()
      ensures dirs == old(dirs)
      ensures files == if path.dir in dirs then old(files)[path := entry] else old(files)
    {
      if path.dir in dirs {
        files := files[path := entry];
      }
    }

    /** `existsSync` on a cache file. */
    method Exists(path: CachePath) returns (b: bool)
      ensures b <==> path in files
    {
      b := path in files;
    }
  }

  /** Gatsby's cache, holding the fragment registry under `groq-fragments`. */
  class GatsbyCache {
    var fragments: Option<Registry>

    constructor(fragments: Option<Registry>)
      ensures this.fragments == fragments
    {
      this.fragments := fragments;
    }

    /** `cache.set('groq-fragments', ...)`: the registry is replaced as a whole. */
    method SetFragments(reg: Registry)
      modifies this
      ensures fragments == Some(reg)
    {
      fragments := Some(reg);
    }
  }

  /** Gatsby's page registry, keyed by page path. */
  class PageStore {
    var pages: map<string, Page>

    constructor(pages: map<string, Page>)
      ensures this.pages == pages
    {
      this.pages := pages;
    }

    method DeletePage(page: Page)
      modifies this
      ensures pages == old(pages) - {page.path}
    {
      pages := pages - {page.path};
    }

    method CreatePage(page: Page)
      modifies this
      ensures pages == old(pages)[page.path := page]
    {
      pages := pages[page.path := page];
    }
  }
}
