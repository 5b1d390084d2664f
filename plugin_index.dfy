/**
 * plugins/gatsby-plugin-groq/index.js: the earlier `runQuery`, which
 * returns the bare result and swallows errors, and the `useGroqQuery` hook
 * whose cache directory depends on the environment.
 */
module PluginIndex {
  import opened Core
  import opened Text
  import opened Fragments
  import RootIndex

  /** `NODE_ENV`: development, or anything else. */
  datatype Env = Development | OtherEnv

  /** The cache directory under the project root for an environment. */
  function GroqDir(root: string, env: Env): (d: Dir)
    ensures env == Development ==> d.path == root + "/.cache/groq"
    ensures env == OtherEnv ==> d.path == root + "/public/static/groq"
  {
    match env
    case Development => Dir(root + "/.cache/groq")
    case OtherEnv => Dir(root + "/public/static/groq")
  }

  /** Development and production results never share a directory. */
  lemma GroqDirsDiffer(root: string)
    ensures GroqDir(root, Development) != GroqDir(root, OtherEnv)
  {
    assert |GroqDir(root, Development).path| != |GroqDir(root, OtherEnv).path|;
  }

  /** The value `runQuery` resolves to: the result, or undefined (None). */
  function RunQueryResult(rawQuery: string, fragments: Option<Registry>, engine: Engine): Option<string> {
    if Contains(rawQuery, Marker) && (fragments.None? || |fragments.value| == 0) then None
    else
      var query := if Contains(rawQuery, Marker) then Resolve(rawQuery, fragments.value) else rawQuery;
      match engine(StripChar(query, '`'))
      case Ok(json) => Some(json)
      case EngineError(_) => None
  }

  method RunQuery(rawQuery: string, fragments: Option<Registry>, engine: Engine) returns (result: Option<string>)
    ensures result == RunQueryResult(rawQuery, fragments, engine)
  {
    var query := rawQuery;
    if Contains(query, Marker) {
      if fragments.None? || |fragments.value| == 0 {
        return None;
      }
      query := ResolveFragments(query, fragments.value);
    }
    query := StripChar(query, '`');
    match engine(query) {
      case Ok(json) =>
        result := Some(json);
      case EngineError(_) =>
        result := None;
    }
  }

  /**
   * The earlier `runQuery` computes what the later one does, and reports
   * only the result: undefined for both the missing-fragments case and an
   * evaluation error.
   */
  lemma AgreesWithRootRunQuery(rawQuery: string, fragments: Option<Registry>, engine: Engine)
    ensures RunQueryResult(rawQuery, fragments, engine) ==
      match RootIndex.RunQueryOutcome(rawQuery, fragments, engine)
      case Evaluated(result, _) => Some(result)
      case _ => None
  {
  }

  /** An evaluation error yields undefined, not the error. */
  lemma ErrorIsUndefined(rawQuery: string, engine: Engine)
    requires !Contains(rawQuery, Marker)
    ensures RunQueryResult(rawQuery, None, engine).None? <==> engine(StripChar(rawQuery, '`')).EngineError?
  {
  }

  /**
   * `useGroqQuery`: the file named by the hash of the query text in the
   * environment's cache directory, or undefined when there is none.
   */
  function UseGroqQuery(files: map<CachePath, Entry>, root: string, env: Env, hash: Hasher, query: string): (r: Option<Entry>)
    ensures r.Some? <==> CachePath(GroqDir(root, env), HashFile(hash(Str(query)))) in files
    ensures r.Some? ==> r.value == files[CachePath(GroqDir(root, env), HashFile(hash(Str(query))))]
  {
    var path := CachePath(GroqDir(root, env), HashFile(hash(Str(query))));
    if path in files then Some(files[path]) else None
  }
}
