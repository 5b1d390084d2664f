# gatsby-plugin-groq, modelled in Dafny

gatsby-plugin-groq lets Gatsby components query their data with GROQ
instead of GraphQL. At build start the plugin scans the site's source files
for two kinds of query:

- a *page query*, the initializer of `export const groqQuery = ...`. It is
  cached under the hash of the file's path as `{unprocessed: <text>}`.
  Whenever a page of that component is created or its file changes, the
  stored text is interpolated with the page's context (`$key` becomes
  `"value"`), evaluated, and put into the page's context as `data`.
- a *static query*, the template-literal argument of a `useGroqQuery(...)`
  call. It is evaluated immediately and its JSON result is cached. The
  `useGroqQuery` hook later looks it up under the hash of the query text.
  The root copy stores it under another key (see Findings).

Before evaluation, `runQuery` substitutes fragments: each string entry of a
user-supplied registry replaces every `${name}`. It then strips backticks
and hands the text to the GROQ engine. A file watcher re-runs both
extractions when a source file changes, and reloads the fragment registry
when the file lies in the fragments directory.

The repository holds two copies of this pipeline:

- the later one at the root (`index.js`, `gatsby-node.js`). It resets the
  cache directory at start, writes the plugin options, keeps every static
  call site and returns `{result, finalQuery}` from `runQuery`. As written,
  its `gatsby-node.js` throws as soon as it is loaded (see Left out). The
  model describes the pipeline that file sets out, with the cache
  directory as a parameter.
- the earlier one under `plugins/gatsby-plugin-groq/`. It picks its cache
  directory by environment, keeps earlier entries, keeps one static query
  per file, evaluates it without fragments, and returns the bare result
  from `runQuery`.

Both copies are modelled.

Module layout:

- `Core`: the shared vocabulary. This covers source files with their
  parsed nodes, cache paths and entries, and pages. The hash and the GROQ
  engine are function parameters.
- `Text`: substring search, global replacement, character stripping and
  JavaScript `substring`.
- `Fragments`: the fragment substitution loop.
- `Interpolation`: page-context substitution.
- `Extract`: page and static query extraction from a parsed file.
- `Store`: the state the pipeline changes, as classes. `Disk` is the cache
  directory, `GatsbyCache` holds the fragment registry, and `PageStore` is
  Gatsby's page registry.
- `Pages`: the refresh of a component's pages.
- `RootIndex` and `RootNode`: the root `index.js` and `gatsby-node.js`.
- `PluginIndex` and `PluginNode`: the plugin's two files.

Methods that change state are proved against specification functions
(`RunQueryOutcome`, `PassWrites`, `ChangeWrites`, `RefreshAll`, ...). The
root `gatsby-node.js` has two defects (see Findings). Its static pipeline
takes a `Version` parameter: `AsWritten` follows the code, and
`Corrected` applies the two corrections. The lemmas state what those
functions promise:

- a stored static result is found again by `useGroqQuery` (corrected
  version);
- a stored page entry is found again by `onCreatePage`;
- every page query of a pass is cached (corrected version);
- a refresh changes only `data`, and only for the pages of the changed
  component;
- fragment resolution without a marker is the identity;
- interpolation removes every context token.

## Model

| member | source | states |
|---|---|---|
| `Text.StripChar` | index.js:95 | The text handed to the engine has no backtick left. Every other character is kept, and a text without backticks is unchanged. |
| `Text.ReplaceAllNoMatch` | index.js:65-67 | `ReplaceAll` models `replace` with a global pattern that matches a literal. A text without the pattern comes back unchanged. |
| `Text.ReplaceAllLeftmost` | index.js:65-67 | `ReplaceAll` replaces the leftmost occurrence and resumes the scan after it, in the rest of the text: a global, non-overlapping replace. |
| `Text.ReplaceAllEliminates` | gatsby-node.js:296-298 | `ReplaceAll` leaves no occurrence when the replacement can neither start one nor complete one begun before it. |
| `Text.JsSubstring` | gatsby-node.js:377 | `substring(a, b)` gives `s[a..b)` when in range, and swaps its bounds when `b < a`. |
| `Fragments.ResolveFragments` | index.js:57-90 | The loop over the registry yields `Resolve`. Entries are applied in registry order. A string value replaces every `${name}`, a name absent from the text is skipped, and a function value changes nothing. |
| `Fragments.PlaceholderHasName` | index.js:59-61 | A text containing `${name}` contains `name`, so the `includes(name)` test never skips a fragment the text uses. |
| `Fragments.SkipIsSound` | index.js:59-61 | Skipping an entry whose name does not occur gives the same text as replacing. |
| `Fragments.ApplyStringFragment` | index.js:63-68 | A string fragment replaces every `${name}` globally. |
| `Fragments.ResolveWithoutMarker` | index.js:46-48 | A text without `${` is unchanged by resolution. |
| `Fragments.ResolveIgnoresNonStrings` | index.js:70-88 | A registry holding only functions or other values leaves the text unchanged. |
| `Fragments.ResolveAppend` | index.js:57 | The registry is processed one entry at a time: resolving with `a + b` is resolving with `a`, then with `b`. |
| `Fragments.ResolveKeepsUnregistered` | index.js:57-90 | A `${n}` that no string entry defines survives resolution. |
| `Fragments.RegistryOrderMatters` | index.js:57-68 | The pass is single: `${a}` with `a -> "${b}"` listed before `b -> "X"` gives `X`, and in the other order `${b}` stays. |
| `Interpolation.InterpolateContext` | gatsby-node.js:292-301 | The loop over the context entries yields `Interpolate`: each entry replaces every `$key` with `"value"`. |
| `Interpolation.InterpolateWithoutDollar` | gatsby-node.js:294-299 | A query without `$` is unchanged by interpolation. |
| `Interpolation.InterpolateAppend` | gatsby-node.js:294 | Context entries are applied in order: interpolating with `a + b` is interpolating with `a`, then with `b`. |
| `Interpolation.InterpolateRemovesTokens` | gatsby-node.js:292-301 | With identifier keys and values free of `$`, no `$key` of the context is left after interpolation. |
| `Interpolation.NoWordBoundary` | gatsby-node.js:296-298 | The pattern has no word boundary: key `_id` also rewrites the prefix of `$_idx`. |
| `Interpolation.PostTemplateFilter` | gatsby-node.js:296-298 | `_id == $_id` with `_id = abc` becomes `_id == "abc"`; the bare field name is untouched. |
| `Extract.LastDeclSpan` | gatsby-node.js:368-382 | Gives None exactly when no `groqQuery` declarator exists; otherwise the span of the last one visited, since each match overwrites. |
| `Extract.PageQueryText` | gatsby-node.js:384-386 | An empty span is falsy and yields nothing; a result is a non-empty span of the last declarator. |
| `Extract.FindPageQuery` | gatsby-node.js:364-386 | The traversal computes `PageQueryText`. |
| `Extract.PageQueryOf` | gatsby-node.js:351-395 | Without the marker or a parse there is no page query. The key is the hash of the file path, and the entry is a non-empty `unprocessed` text, the last declarator's span. |
| `Extract.ProcessFilePageQuery` | gatsby-node.js:351-395 | Computes `PageQueryOf`. |
| `Extract.HookArgs` | gatsby-node.js:422-435 | One argument per `useGroqQuery` call in traversal order, each from a hook call. The list is empty exactly when there is no call. |
| `Extract.HookArgsAppend` | gatsby-node.js:422-435 | The traversal distributes over concatenation of node lists. |
| `Extract.StaticQueries` | gatsby-node.js:418-435 | There is one static query text per `useGroqQuery` call site. |
| `Extract.FindStaticQueries` | gatsby-node.js:418-435 | Computes `StaticQueries`: one text per call site in traversal order, each `contents[start+1 .. end-1)` of its argument. |
| `Extract.ScanQuasis` | plugins/gatsby-plugin-groq/gatsby-node.js:451-460 | The traversal throws exactly when some call's argument has no quasi. It sees nothing exactly when there is no call, and otherwise keeps the last call's first quasi. |
| `Extract.FindLastStaticQuery` | plugins/gatsby-plugin-groq/gatsby-node.js:449-463 | Computes `StaticQueryText`. A result is non-empty, and every call site had a template argument. |
| `Extract.ScanStaysThrown` | plugins/gatsby-plugin-groq/gatsby-node.js:441-475 | Once the traversal has thrown, later nodes do not matter. |
| `Store.LastWrite` | gatsby-node.js:472-498 | Finds the last write to a path among a batch, or None when no write touches it. |
| `Store.ApplyWritesAt` | gatsby-node.js:481 | `writeFileSync` overwrites: after a batch a file holds its last write, or its earlier content when not written. |
| `Store.ApplyWritesAppend` | gatsby-node.js:472-498 | Writing two batches in turn is writing their concatenation. |
| `Store.ApplyWritesIdempotent` | gatsby-node.js:472-498 | Replaying a batch changes nothing further. |
| `Store.WrittenIsPresent` | gatsby-node.js:481 | Every written path exists afterwards. |
| `Store.WithoutDir` | gatsby-node.js:24-25 | Removing the directory recursively leaves no file in it and keeps every other file. |
| `Store.Disk.ResetDir` | gatsby-node.js:24-27 | The directory exists and is emptied; other files stay. |
| `Store.Disk.EnsureDir` | plugins/gatsby-plugin-groq/gatsby-node.js:31-33 | The directory exists and no file changes. |
| `Store.Disk.WriteFile` | gatsby-node.js:481-485 | Overwrites the file when its directory exists, and changes nothing otherwise. |
| `Store.Disk.Exists` | gatsby-node.js:169 | Returns true exactly when the file exists. |
| `Store.GatsbyCache.SetFragments` | gatsby-node.js:256-276 | The registry is replaced as a whole. |
| `Store.PageStore.DeletePage` | gatsby-node.js:312 | Only that page's path is removed. |
| `Store.PageStore.CreatePage` | gatsby-node.js:313-315 | The page is stored under its path, replacing what was there. |
| `Pages.RefreshAllFrames` | gatsby-node.js:106-123 | The refresh loop keeps the set of pages and leaves other components' pages unchanged. A refreshed page differs only in `data`. |
| `Pages.RefreshAllIdempotent` | gatsby-node.js:106-123 | Refreshing a component twice equals refreshing it once. |
| `RootIndex.Evaluate` | index.js:93-110 | The engine sees the backtick-stripped text. Success yields `{result, finalQuery}` with `finalQuery` the unstripped text; failure yields the error. |
| `RootIndex.RunQuery` | index.js:40-113 | Computes `RunQueryOutcome`: the marker test, the missing-registry undefined, fragment resolution, then evaluation. |
| `RootIndex.MarkerGuardIsShortcut` | index.js:46-53 | With a non-empty registry the `${` test only saves work: the outcome equals resolving and evaluating unconditionally. |
| `RootIndex.MissingFragmentsExactly` | index.js:48-53 | Undefined comes back exactly when the text has `${` and the registry is absent or empty. |
| `RootIndex.WithoutMarkerOnlyStrips` | index.js:46-100 | Without `${` the registry is irrelevant and `finalQuery` is the raw text. Evaluation succeeds exactly when the engine accepts the stripped text. |
| `RootIndex.UnregisteredPlaceholderReachesFinalQuery` | index.js:57-100 | A placeholder without a string fragment is still in `finalQuery` when evaluation succeeds. |
| `RootIndex.UseGroqQuery` | index.js:15-27 | Returns the entry stored under the hash of the query text, or undefined when there is none. |
| `PluginIndex.GroqDir` | plugins/gatsby-plugin-groq/index.js:21-42 | Development reads `.cache/groq`; every other environment reads `public/static/groq`. |
| `PluginIndex.GroqDirsDiffer` | plugins/gatsby-plugin-groq/index.js:21-42 | The two environments never share a directory. |
| `PluginIndex.RunQuery` | plugins/gatsby-plugin-groq/index.js:57-125 | Computes `RunQueryResult`: the bare result, or undefined. |
| `PluginIndex.AgreesWithRootRunQuery` | plugins/gatsby-plugin-groq/index.js:57-125 | The earlier `runQuery` gives the root one's `result` on success. It gives undefined both for missing fragments and for an evaluation error. |
| `PluginIndex.ErrorIsUndefined` | plugins/gatsby-plugin-groq/index.js:112-123 | Without fragments the result is undefined exactly when the engine rejects the stripped text. |
| `PluginIndex.UseGroqQuery` | plugins/gatsby-plugin-groq/index.js:17-45 | Returns the entry under the hash of the query in the environment's directory, or undefined. |
| `RootNode.StaticResultFor` | gatsby-node.js:443-454 | An evaluated query gives its JSON, and a failed one an undefined `json`. As written every key is `hash(undefined)`; corrected, an evaluated query is keyed by the hash of `finalQuery`. |
| `RootNode.RunStaticQueries` | gatsby-node.js:441-459 | Evaluates every text in order. Any undefined `runQuery` throws (destructuring); otherwise there is one `{hash, json}` per text, keyed as the version says. |
| `RootNode.ProcessFileStaticQueries` | gatsby-node.js:405-461 | Computes `StaticOutcomeOf`. Nothing happens without the marker, a parse or a call site; otherwise it throws or returns the results. |
| `RootNode.StaticWrites` | gatsby-node.js:232-239 | One write per result, in order, up to the first result lacking `hash` or `json`. It reports such a result exactly when it stopped before the end. |
| `RootNode.CacheStaticResults` | gatsby-node.js:230-242 | Writes `StaticWrites` and reports whether it met a falsy result. |
| `RootNode.ProcessFile` | gatsby-node.js:216-243 | One turn of the loop writes the page entry, then the static results. It reports whether the static extraction threw and whether it met a falsy result. |
| `RootNode.ExtractQueries` | gatsby-node.js:191-247 | The pass writes `PassWrites` of the scanned files. A throw ends it; as written, so does a falsy static result (the `return`), while corrected only that file's static writes stop. |
| `RootNode.Startup` | gatsby-node.js:22-53 | The directory is emptied and recreated, then `options.json` is written. The registry is loaded when configured, then the pass's writes follow. |
| `RootNode.StartupLeavesNoStaleEntry` | gatsby-node.js:24-27 | After startup every file in the cache directory was written by this run. |
| `RootNode.RefreshedPage` | gatsby-node.js:283-324 | The refresh throws (None) exactly when there is no page entry or the query needs missing fragments. Otherwise only `data` changes: it is undefined exactly on an evaluation error, and otherwise the evaluated JSON. |
| `RootNode.RefreshIsDataOnly` | gatsby-node.js:283-324 | A page refresh changes only `data` and depends on everything but `data`. |
| `RootNode.PageQueryToContext` | gatsby-node.js:283-324 | The page gets `data` from the interpolated stored query: the result on success, undefined on an evaluation error. It is left alone when the entry is missing or fragments are missing (the `try` swallows the throw). |
| `RootNode.RefreshPages` | gatsby-node.js:106-123 | Refreshes exactly the pages of the changed component, over a snapshot of the registry. |
| `RootNode.UnmarkedChangeWritesNothing` | gatsby-node.js:77-81 | A changed file with neither marker writes nothing. |
| `RootNode.OnChange` | gatsby-node.js:61-155 | Reloads the registry when the file is in the fragments directory. Rewrites the page entry and refreshes the component's pages, then writes the static results, keyed as the version says. |
| `RootNode.ReprocessPageQuery` | gatsby-node.js:89-127 | The page branch writes the page entry and refreshes every page of the component from it. |
| `RootNode.ReprocessStaticQueries` | gatsby-node.js:130-150 | The static branch writes results up to the first falsy one. |
| `RootNode.OnCreatePage` | gatsby-node.js:162-183 | A new page is refreshed from the entry under the hash of its component, and left alone when there is none. |
| `RootNode.PageEntryRoundTrip` | gatsby-node.js:162-171 | The entry extraction writes for a file is the one `onCreatePage` reads for a page of that component. |
| `RootNode.AsWrittenStaticLookupMisses` | gatsby-node.js:446-451 | As written, the static result is keyed by `hash(undefined)`, so `useGroqQuery` on the query text misses it. |
| `RootNode.StaticResultRoundTrip` | gatsby-node.js:446-454 | With the key hashed from `finalQuery`, `useGroqQuery` on that text returns the stored result. |
| `RootNode.LastStaticWrite` | gatsby-node.js:232-239 | After the static loop, a result's file holds that result's JSON, when no falsy result comes before it and no later result shares its key. |
| `RootNode.ChangeCachesStaticQueries` | gatsby-node.js:136-150 | After a corrected change, `useGroqQuery` on a static query's final text returns exactly that query's result. This holds when no falsy result comes before it and no later static query of the file shares its key. |
| `RootNode.RejectedStaticQueryStep` | gatsby-node.js:232-236 | A file whose only static query the engine rejects writes nothing and meets the falsy exit, in either version. |
| `RootNode.PageQueryFileStep` | gatsby-node.js:218-226 | A file with only a page query writes exactly its page entry. |
| `RootNode.EarlyReturnSkipsLaterFiles` | gatsby-node.js:216-243 | As written, a rejected static query in the first file means a later file's page query is never cached. The corrected pass caches it. |
| `RootNode.ZeroUndefinedHashSkipsLaterFiles` | gatsby-node.js:234-236 | As written, with `hash(undefined) = 0` even an accepted static query is falsy, so the pass stops and a later page query is never cached. The corrected pass writes the result under its text's hash and continues. |
| `RootNode.PageWriteInPass` | gatsby-node.js:216-226 | Up to the first throwing file, the corrected pass includes every scanned file's page entry. |
| `RootNode.CorrectedPassCachesEveryPage` | gatsby-node.js:216-243 | After the corrected pass every scanned file's page query is cached, unless a static extraction threw first. |
| `PluginNode.StaticQueryOf` | plugins/gatsby-plugin-groq/gatsby-node.js:432-479 | There is a result exactly when the marker, a parse and a non-empty raw first quasi of the last hook call exist. The key hashes that text, and the JSON is `runQuery`'s result without fragments. |
| `PluginNode.ProcessFileStaticQuery` | plugins/gatsby-plugin-groq/gatsby-node.js:432-479 | Computes `StaticQueryOf`. |
| `PluginNode.WritePageQuery` | plugins/gatsby-plugin-groq/gatsby-node.js:214-217 | Writes the page entry when there is one. |
| `PluginNode.WriteStaticQuery` | plugins/gatsby-plugin-groq/gatsby-node.js:221-224 | Writes the static JSON when there is a query and its JSON is defined. |
| `PluginNode.ProcessFile` | plugins/gatsby-plugin-groq/gatsby-node.js:207-226 | One turn writes the page entry, then the static entry. |
| `PluginNode.ExtractQueries` | plugins/gatsby-plugin-groq/gatsby-node.js:177-231 | The pass writes every file's writes in order; no file ends it. |
| `PluginNode.Startup` | plugins/gatsby-plugin-groq/gatsby-node.js:26-45 | The directory is created when missing and nothing is removed. The registry is loaded when configured, then the pass's writes follow. |
| `PluginNode.StartupKeepsEarlierEntries` | plugins/gatsby-plugin-groq/gatsby-node.js:31-33 | An entry of an earlier run that the pass does not rewrite survives unchanged. |
| `PluginNode.RefreshedPage` | plugins/gatsby-plugin-groq/gatsby-node.js:288-320 | The refresh succeeds exactly when a page entry is stored, and then changes only `data`. `data` is a JSON result exactly when `runQuery` gives one, and then it is that result; otherwise it is undefined. |
| `PluginNode.RefreshIsDataOnly` | plugins/gatsby-plugin-groq/gatsby-node.js:288-320 | A page refresh changes only `data` and depends on everything but `data`. |
| `PluginNode.RefreshAgreesWithRoot` | plugins/gatsby-plugin-groq/gatsby-node.js:308-318 | The two copies refresh a page alike when the root one changes it. Where the root one leaves it alone for missing fragments, this one sets `data` to undefined. |
| `PluginNode.PageQueryToContext` | plugins/gatsby-plugin-groq/gatsby-node.js:288-320 | Computes `RefreshedPage` and applies it with delete and create. |
| `PluginNode.RefreshPages` | plugins/gatsby-plugin-groq/gatsby-node.js:98-115 | Refreshes exactly the pages of the changed component. |
| `PluginNode.ReprocessPageQuery` | plugins/gatsby-plugin-groq/gatsby-node.js:81-119 | The page branch writes the page entry and refreshes every page of the component from it. |
| `PluginNode.OnChange` | plugins/gatsby-plugin-groq/gatsby-node.js:53-140 | Reloads the registry when due, then writes the page entry and refreshes pages. Finally it writes the static entry; an undefined result or a traversal throw is swallowed. |
| `PluginNode.OnCreatePage` | plugins/gatsby-plugin-groq/gatsby-node.js:148-169 | A new page is refreshed from the entry under the hash of its component in the environment's directory. |
| `PluginNode.StaticResultRoundTrip` | plugins/gatsby-plugin-groq/gatsby-node.js:458-469 | After a change, `useGroqQuery` on the extracted text (the raw first quasi of the last hook call) returns exactly the JSON that text evaluated to. |
| `PluginNode.StaticFragmentQueryNotCached` | plugins/gatsby-plugin-groq/gatsby-node.js:458-466 | An extracted text holding the fragment marker (possible only through an escaped `\${`, since the text stops at the first expression) runs without a registry and is never cached. |
| `PluginNode.FileWritesInPass` | plugins/gatsby-plugin-groq/gatsby-node.js:207-226 | Every write of any file's turn is among the pass's writes. |
| `PluginNode.PassCachesEveryPage` | plugins/gatsby-plugin-groq/gatsby-node.js:207-226 | Every scanned file's page query is cached, whatever the other files contain. |
| `PluginNode.PassCachesEveryStaticResult` | plugins/gatsby-plugin-groq/gatsby-node.js:207-226 | After the pass, `useGroqQuery` on every scanned file's extracted text (the raw first quasi of the last hook call) finds a result when that text evaluates. |

## Left out

- Babel parsing and traversal: a parsed file is given as its flat list of relevant nodes in traversal order, with source offsets. A parse that fails is `ast = None`.
- The GROQ engine (groq-js `parse`, `evaluate`, `get`) is a parameter from query text to a JSON text or an error. The dataset it reads (`getNodes()`) is folded into it.
- The hash is a parameter. `murmur.js` is not part of this model, so neither its value for `undefined` nor its collisions are modelled.
- File I/O is modelled as a map from cache paths to entries. `JSON.stringify` and `JSON.parse` are taken as inverse, and an entry is either a page entry or a JSON result. Globbing, `normalizePath`, `require` and its module cache, and reading source files are left out. A source file is given with its path, contents and parsed nodes.
- Concurrency is left out. The un-awaited `cacheFragments`, `extractQueries`, `pageQueryToContext` and `cacheQueryResults` calls are modelled as running to completion in program order, and the page loop runs over a snapshot of the page registry.
- The `axios` refresh request in the plugin watcher and all logging are left out.
- Writing `JSON.stringify(undefined)` fails inside an async function. It is modelled as writing no file.
- The fragments index file is taken to exist whenever a fragments directory is configured. A missing `index.js` makes `readFileSync` throw, which is not modelled. A reload is given as the registry it yields.
- Page extraction reads `path.node.declaration.declarations[0]` of every named export (gatsby-node.js:371-376, plugins/gatsby-plugin-groq/gatsby-node.js:356-361). This throws for `export { x }`, `export function`, `export class` and a declarator without initializer such as `export let groqQuery;`. Static extraction reads `path.node.arguments[0].start` (gatsby-node.js:427), which throws for a `useGroqQuery()` call without argument. In the root copy nothing catches these throws, so the extraction pass or the change handler aborts. In the plugin copy the page extraction's `try` catches them, and the file's page query is dropped. None of this is modelled: every `ExportNamed` node carries a declarator name and initializer span, and every hook call an argument.
- The `data` entry that `pageQueryToContext` adds to a page's context object is modelled as a separate `data` field of the page. Coercion of non-string context values in the interpolation replacement is not modelled: context values are strings.
- RootNode.RefreshIsDataOnly: in the source, `data` becomes an entry of `page.context` (gatsby-node.js:310-315), so a later refresh interpolates the previous result into every `$data` token of the stored query, and, having no word boundary, into every `$data...` prefix (gatsby-node.js:294-298). A stored query with such a token gives different queries on the first and the second refresh. The model keeps `data` out of the context, so it does not capture this.
- PluginNode.StaticResultRoundTrip: the lookup is stated for the extracted text, the raw first quasi of the last hook call, which stops before the first `${...}` expression and keeps escapes as written. For a template with an expression or an escape, the text the hook hashes at run time differs from the extracted text, so its lookup misses; the model has no runtime template evaluation to state that.
- PluginNode.PassCachesEveryStaticResult: the same gap. The pass caches each result under the hash of the extracted text, which is the hook's runtime argument only for a template with one quasi and no escapes.
- PluginNode.RefreshIsDataOnly: the same holds for the earlier copy (plugins/gatsby-plugin-groq/gatsby-node.js:299-303, 314-319).
- Pages.RefreshAllIdempotent: it holds for refreshes that change only `data`. In the source that excludes stored queries with a `$data` token, as described above.
- Interpolation keys and fragment names are taken as regular-expression-safe identifiers, so the `RegExp` built from them matches the literal text.
- Fragments.ResolveFragments: `Resolve` and `ApplyFragment` insert a fragment's text verbatim. JavaScript's `replace` expands `$$`, `$&`, `` $` ``, `$'` and, since the fragment pattern captures the name, `$1` in the replacement (index.js:65-67, plugins/gatsby-plugin-groq/index.js:84). The model agrees with the source only for fragment texts without `$`, as `WellFormedRegistry` states.
- Interpolation.InterpolateContext: `Interpolate` inserts `"value"` verbatim, whereas `replace` expands `$$`, `$&`, `` $` `` and `$'` in it (gatsby-node.js:296-298, plugins/gatsby-plugin-groq/gatsby-node.js:303). A value `a$$b` becomes `"a$b"` in the source. The model agrees with the source only for values without `$`, as `WellFormedContext` states.
- `onCreateWebpackConfig` (gatsby-node.js:329-341) only hands the cache directory to webpack and is not modelled.
- Root gatsby-node.js:11-13 reads `groqDirectories` from `./index`, which exports only `useGroqQuery` and `runQuery` (index.js:15, 40). Destructuring `GROQ_DIR` and `ROOT` from `undefined` throws a `TypeError` when the module is loaded, so as written none of the root `gatsby-node.js` runs. This load-time throw is not modelled. The cache directory is a parameter of the root pipeline, and the model describes what the file's functions do once they are reached.
- The branch at gatsby-node.js:447-449 (`result instanceof Error`) cannot be taken, since `result` is never the error object. It is not modelled.
- The page-query extraction keeps the last `groqQuery` declarator a file exports, because each match overwrites `pageQuery` in the code.
- RootNode.ChangeCachesStaticQueries: stated for the corrected version only. As written, every static result shares the key `hash(undefined)`, so the lookup misses (first finding).
- RootNode.PageWriteInPass: stated for the corrected version only. As written, a falsy static result in an earlier file ends the pass (second finding).
- RootNode.CorrectedPassCachesEveryPage: stated for the corrected version only, for the same reason.

## Findings

| source | as written | input that shows it | evidently intended | confidence | as-written member | corrected member |
|---|---|---|---|---|---|---|
| gatsby-node.js:446-451 | The static key is `hashQuery(queryToHash)`, a field `runQuery` (index.js:100) never returns, so every static result is stored under `hash(undefined)`. | Any static query `q` that evaluates, with any hash for which `hash(undefined) != hash(q)`. `useGroqQuery(q)` then finds no entry. | Key the result by the hash of `finalQuery`. That is the text `useGroqQuery` is called with when the template has no escapes and every `${...}` in it is a registered string fragment equal to the component's import. | not executed | `RootNode.AsWrittenStaticLookupMisses` | `RootNode.StaticResultRoundTrip` |
| gatsby-node.js:234-236 | A static result lacking `hash` or `json` makes `extractQueries` return, skipping every later file. | File `a.js` is ``useGroqQuery(`x`)``, whose query the engine rejects; file `b.js` is ``export const groqQuery = `*` ``. `b.js`'s page entry is never written. | Skip only that file's remaining static results and continue with the next file. | not executed | `RootNode.EarlyReturnSkipsLaterFiles` | `RootNode.CorrectedPassCachesEveryPage` |
