/**
 * index.js: `runQuery` (fragment resolution, backtick strip, evaluation,
 * result or error) and the `useGroqQuery` hook's cache lookup.
 */
module RootIndex {
  import opened Core
  import opened Text
  import opened Fragments

  /**
   * What `runQuery` resolves to: undefined when fragments are needed but
   * none are registered, `{result, finalQuery}` on success, the error
   * object on failure.
   */
  datatype RunOutcome = MissingFragments | Evaluated(result: string, finalQuery: string) | Failed(error: string)

  /** Parse, evaluate and get on the text with every backtick removed. */
  function Evaluate(engine: Engine, query: string): (out: RunOutcome)
    ensures !out.MissingFragments?
    ensures out.Evaluated? <==> engine(StripChar(query, '`')).Ok?
    ensures out.Evaluated? ==> out.finalQuery == query && Ok(out.result) == engine(StripChar(query, '`'))
  {
    match engine(StripChar(query, '`'))
    case Ok(json) => Evaluated(json, query)
    case EngineError(message) => Failed(message)
  }

  /** The outcome of `runQuery` on a raw query and the registry read from the cache. */
  function RunQueryOutcome(rawQuery: string, fragments: Option<Registry>, engine: Engine): RunOutcome {
    if !Contains(rawQuery, Marker) then Evaluate(engine, rawQuery)
    else if fragments.None? || |fragments.value| == 0 then MissingFragments
    else Evaluate(engine, Resolve(rawQuery, fragments.value))
  }

  method RunQuery(rawQuery: string, fragments: Option<Registry>, engine: Engine) returns (out: RunOutcome)
    ensures out == RunQueryOutcome(rawQuery, fragments, engine)
  {
    var query := rawQuery;
    if Contains(query, Marker) {
      if fragments.None? || |fragments.value| == 0 {
        return MissingFragments;
      }
      query := ResolveFragments(query, fragments.value);
    }
    var stripped := StripChar(query, '`');
    match engine(stripped) {
      case Ok(json) =>
        out := Evaluated(json, query);
      case EngineError(message) =>
        out := Failed(message);
    }
  }

  /**
   * The `${` test only saves work: with a non-empty registry the outcome is
   * that of resolving every fragment and evaluating, marker or not.
   */
  lemma MarkerGuardIsShortcut(rawQuery: string, reg: Registry, engine: Engine)
    requires |reg| > 0
    ensures RunQueryOutcome(rawQuery, Some(reg), engine) == Evaluate(engine, Resolve(rawQuery, reg))
  {
    if !Contains(rawQuery, Marker) {
      ResolveWithoutMarker(rawQuery, reg);
    }
  }

  /**
   * Undefined comes back exactly when the text has `${` and no registry (or
   * an empty one) is available; otherwise the engine runs.
   */
  lemma MissingFragmentsExactly(rawQuery: string, fragments: Option<Registry>, engine: Engine)
    ensures RunQueryOutcome(rawQuery, fragments, engine).MissingFragments?
      <==> Contains(rawQuery, Marker) && (fragments.None? || |fragments.value| == 0)
  {
  }

  /**
   * Without `${` the registry plays no part: the only rewrite before the
   * engine runs is the removal of every backtick, and `finalQuery` is the
   * raw text itself.
   */
  lemma WithoutMarkerOnlyStrips(rawQuery: string, fragments: Option<Registry>, engine: Engine)
    requires !Contains(rawQuery, Marker)
    ensures RunQueryOutcome(rawQuery, fragments, engine) == RunQueryOutcome(rawQuery, None, engine)
    ensures RunQueryOutcome(rawQuery, fragments, engine).Evaluated? ==>
      RunQueryOutcome(rawQuery, fragments, engine).finalQuery == rawQuery
    ensures RunQueryOutcome(rawQuery, fragments, engine).Evaluated? <==> engine(StripChar(rawQuery, '`')).Ok?
  {
  }

  /** A placeholder no string fragment defines reaches `finalQuery` verbatim. */
  lemma UnregisteredPlaceholderReachesFinalQuery(rawQuery: string, reg: Registry, n: string, engine: Engine)
    requires |reg| > 0 && WellFormedRegistry(reg) && IsIdentifier(n)
    requires Contains(rawQuery, Placeholder(n))
    requires forall i | 0 <= i < |reg| :: reg[i].0 == n ==> !reg[i].1.StringFragment?
    requires RunQueryOutcome(rawQuery, Some(reg), engine).Evaluated?
    ensures Contains(RunQueryOutcome(rawQuery, Some(reg), engine).finalQuery, Placeholder(n))
  {
    ContainsInner(rawQuery, Placeholder(n), 0, 2);
    assert Placeholder(n)[0..2] == Marker;
    ResolveKeepsUnregistered(rawQuery, reg, n);
  }

  /**
   * `useGroqQuery`: the file named by the hash of the query text in the
   * cache directory, or undefined when there is none.
   */
  function UseGroqQuery(files: map<CachePath, Entry>, groqDir: Dir, hash: Hasher, query: string): (r: Option<Entry>)
    ensures r.Some? <==> CachePath(groqDir, HashFile(hash(Str(query)))) in files
    ensures r.Some? ==> r.value == files[CachePath(groqDir, HashFile(hash(Str(query))))]
  {
    var path := CachePath(groqDir, HashFile(hash(Str(query))));
    if path in files then Some(files[path]) else None
  }
}
