/**
 * Shared vocabulary of the GROQ extraction-and-caching pipeline: the values
 * that flow between the extractor, the fragment resolver, the query engine,
 * the result cache and the page registry.
 *
 * Everything the plugin calls but does not implement is a parameter here:
 * the murmur hash is a `Hasher`, the GROQ parse/evaluate/get chain run
 * against one dataset snapshot is an `Engine`.
 */
module Core {

  datatype Option<T> = None | Some(value: T)

  /** A cache identifier: the number murmurhash returns.  JavaScript treats 0 as falsy. */
  type Key = nat

  /**
   * What is handed to the hash.  `Undefined` is the JavaScript value
   * `undefined`, which the root pipeline hashes for every static query.
   */
  datatype HashArg = Str(text: string) | Undefined

  /** The hash: deterministic, otherwise unknown. */
  type Hasher = HashArg -> Key

  /**
   * Outcome of `groq.parse`, `groq.evaluate` and `value.get` on one query
   * text.  A successful result is kept as its JSON serialisation.
   */
  datatype EngineOutcome = Ok(json: string) | EngineError(message: string)

  type Engine = string -> EngineOutcome

  /** The values a fragments module may export under a name. */
  datatype FragmentValue = StringFragment(text: string) | FunctionFragment | OtherFragment

  /** `Object.entries(fragments)`: the registry in export order. */
  type Registry = seq<(string, FragmentValue)>

  /** A directory of the cache. */
  datatype Dir = Dir(path: string)

  /** A file inside a cache directory: `<hash>.json` or `options.json`. */
  datatype FileName = HashFile(key: Key) | OptionsFile

  datatype CachePath = CachePath(dir: Dir, name: FileName)

  /**
   * Contents of one cache file, already parsed back (parse after
   * serialise is taken to be the identity): a page entry
   * `{"unprocessed": ...}` or any other serialised JSON text.
   */
  datatype Entry = PageEntry(unprocessed: string) | JsonEntry(json: string)

  datatype CacheWrite = CacheWrite(path: CachePath, entry: Entry)

  /** `page.context.data`: JavaScript `undefined` or a query result. */
  datatype Datum = UndefinedDatum | JsonDatum(json: string)

  /**
   * A page of the host's registry.  `context` holds the page's string
   * context entries in insertion order; `data` is the `data` entry this
   * plugin adds (None while the page has none).
   */
  datatype Page = Page(path: string, component: string, context: seq<(string, string)>, data: Option<Datum>)

  /** A source file as the extractor sees it; `ast` is None when the parser fails. */
  datatype SourceFile = SourceFile(path: string, contents: string, ast: Option<seq<AstNode>>)

  /**
   * The nodes of a parsed file, in traversal order, reduced to what the
   * extractor looks at: named exports with their first declarator, and
   * call expressions with their first argument.
   */
  datatype AstNode =
    | ExportNamed(declName: string, initStart: int, initEnd: int)
    | CallExpr(callee: Option<string>, arg: Arg)
    | OtherNode

  /**
   * The first argument of a call: its source span (delimiters included)
   * and, when it is a template literal, the raw text of its first quasi:
   * the text before the first `${...}` expression, escapes kept as written.
   */
  datatype Arg = Arg(start: int, end: int, firstQuasi: Option<string>)
}
