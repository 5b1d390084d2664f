/**
 * Page-context interpolation, as `pageQueryToContext` performs it in both
 * copies of gatsby-node.js: for each context entry in insertion order,
 * every `$key` in the stored page query becomes `"value"`.
 */
module Interpolation {
  import opened Core
  import opened Text

  /** A page's string context entries, in insertion order. */
  type Context = seq<(string, string)>

  function Token(key: string): string {
    "$" + key
  }

  function Quoted(value: string): string {
    "\"" + value + "\""
  }

  /**
   * The contexts for which the regular expression `\$key` matches the
   * literal `$key` and the replacement is inserted verbatim: identifier
   * keys and `$`-free values.
   */
  predicate WellFormedContext(ctx: Context) {
    forall i | 0 <= i < |ctx| :: IsIdentifier(ctx[i].0) && '$' !in ctx[i].1
  }

  /** The query after every context entry has been substituted, in order. */
  function Interpolate(query: string, ctx: Context): string
    decreases |ctx|
  {
    if |ctx| == 0 then query
    else ReplaceAll(Interpolate(query, ctx[..|ctx| - 1]), Token(ctx[|ctx| - 1].0), Quoted(ctx[|ctx| - 1].1))
  }

  /** The loop of `pageQueryToContext` that reassigns `query` once per context entry. */
  method InterpolateContext(query: string, ctx: Context) returns (q: string)
    ensures q == Interpolate(query, ctx)
  {
    q := query;
    var i := 0;
    while i < |ctx|
      invariant 0 <= i <= |ctx|
      invariant q == Interpolate(query, ctx[..i])
    {
      var (key, value) := ctx[i];
      assert ctx[..i + 1][..i] == ctx[..i];
      q := ReplaceAll(q, Token(key), Quoted(value));
      i := i + 1;
    }
    assert ctx[..|ctx|] == ctx;
  }

  /** A query without `$` has nothing to interpolate. */
  lemma {:induction false} InterpolateWithoutDollar(query: string, ctx: Context)
    requires '$' !in query
    ensures Interpolate(query, ctx) == query
    decreases |ctx|
  {
    if |ctx| > 0 {
      InterpolateWithoutDollar(query, ctx[..|ctx| - 1]);
      var t := Token(ctx[|ctx| - 1].0);
      if Contains(query, t) {
        ContainsFirst(query, t);
      }
      ReplaceAllNoMatch(query, t, Quoted(ctx[|ctx| - 1].1));
    }
  }

  /** Entries are applied one after another: a longer context continues from a shorter one. */
  lemma {:induction false} InterpolateAppend(query: string, a: Context, b: Context)
    ensures Interpolate(query, a + b) == Interpolate(Interpolate(query, a), b)
    decreases |b|
  {
    if |b| == 0 {
      assert a + b == a;
    } else {
      assert (a + b)[..|a + b| - 1] == a + b[..|b| - 1];
      InterpolateAppend(query, a, b[..|b| - 1]);
    }
  }

  /**
   * After interpolation no `$key` of any context entry is left: each entry
   * removes its own tokens, and no later entry creates one.
   */
  lemma {:induction false} InterpolateRemovesTokens(query: string, ctx: Context)
    requires WellFormedContext(ctx)
    ensures forall i | 0 <= i < |ctx| :: !Contains(Interpolate(query, ctx), Token(ctx[i].0))
    decreases |ctx|
  {
    if |ctx| > 0 {
      var prefix := ctx[..|ctx| - 1];
      var before := Interpolate(query, prefix);
      var (key, value) := ctx[|ctx| - 1];
      InterpolateRemovesTokens(query, prefix);
      assert Quoted(value)[1..|value| + 1] == value;
      forall i | 0 <= i < |ctx|
        ensures !Contains(Interpolate(query, ctx), Token(ctx[i].0))
      {
        var t := Token(ctx[i].0);
        assert t[1..] == ctx[i].0;
        assert '"' !in ctx[i].0;
        if i == |ctx| - 1 {
          ReplaceAllEliminates(before, t, Quoted(value));
        } else {
          assert prefix[i] == ctx[i];
          ReplaceAllAddsNone(before, Token(key), Quoted(value), t);
        }
      }
    }
  }

  /**
   * There is no word-boundary check: the key `_id` also rewrites the start
   * of `$_idx`.
   */
  lemma NoWordBoundary()
    ensures Interpolate("$_idx", [("_id", "5")]) == "\"5\"x"
  {
    var ctx: Context := [("_id", "5")];
    assert ctx[..0] == [];
    assert IsPrefix(Token("_id"), "$_idx");
    assert "$_idx"[4..] == "x";
    assert ReplaceAll("x", Token("_id"), Quoted("5")) == "x";
  }

  /**
   * The template page's filter `_id == $_id` becomes a comparison with the
   * quoted context value.
   */
  lemma PostTemplateFilter()
    ensures Interpolate("_id == $_id", [("_id", "abc")]) == "_id == \"abc\""
  {
    var ctx: Context := [("_id", "abc")];
    var t := Token("_id");
    assert ctx[..0] == [];
    assert "_id == $_id" == "_id == " + t;
    ReplaceAllSkipsFree("_id == ", t, t, Quoted("abc"));
    assert IsPrefix(t, t) && t[|t|..] == [];
    assert ReplaceAll(t, t, Quoted("abc")) == Quoted("abc");
  }
}
