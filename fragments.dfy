/**
 * Fragment resolution as `runQuery` performs it in both copies of
 * index.js: walk the registry in export order and, for every string
 * fragment whose name occurs in the text, replace each `${name}` by the
 * fragment's text.
 */
module Fragments {
  import opened Core
  import opened Text

  /** The marker whose presence turns fragment resolution on. */
  const Marker: string := "${"

  /** A changed file inside the configured fragments directory makes the watcher reload the registry. */
  predicate ReloadsFragments(fragmentsDir: Option<string>, changed: string) {
    fragmentsDir.Some? && Contains(changed, fragmentsDir.value)
  }

  function Placeholder(name: string): string {
    "${" + name + "}"
  }

  /**
   * The registry shapes for which the regular expression built from a name
   * matches exactly `${name}` and the replacement text is inserted
   * verbatim: identifier names, string values without `$`.
   */
  predicate WellFormedRegistry(reg: Registry) {
    forall i | 0 <= i < |reg| ::
      IsIdentifier(reg[i].0) && (reg[i].1.StringFragment? ==> '$' !in reg[i].1.text)
  }

  /**
   * One turn of the loop: skip a name the text does not contain, replace
   * globally for a string value, do nothing for any other value.
   */
  function ApplyFragment(query: string, entry: (string, FragmentValue)): string {
    if !Contains(query, entry.0) then query
    else match entry.1
      case StringFragment(text) => ReplaceAll(query, Placeholder(entry.0), text)
      case _ => query
  }

  /** The text after the whole loop: each entry applied to the text the previous ones left. */
  function Resolve(query: string, reg: Registry): string
    decreases |reg|
  {
    if |reg| == 0 then query
    else ApplyFragment(Resolve(query, reg[..|reg| - 1]), reg[|reg| - 1])
  }

  /** The loop of `runQuery` that reassigns `query` once per registry entry. */
  method ResolveFragments(query: string, reg: Registry) returns (resolved: string)
    ensures resolved == Resolve(query, reg)
  {
    resolved := query;
    var i := 0;
    while i < |reg|
      invariant 0 <= i <= |reg|
      invariant resolved == Resolve(query, reg[..i])
    {
      var (name, value) := reg[i];
      assert reg[..i + 1][..i] == reg[..i];
      if !Contains(resolved, name) {
        i := i + 1;
        continue;
      }
      match value {
        case StringFragment(text) =>
          resolved := ReplaceAll(resolved, Placeholder(name), text);
        case FunctionFragment =>
        case OtherFragment =>
      }
      i := i + 1;
    }
    assert reg[..|reg|] == reg;
  }

  lemma PlaceholderHasName(q: string, name: string)
    requires Contains(q, Placeholder(name))
    ensures Contains(q, name)
  {
    ContainsInner(q, Placeholder(name), 2, 2 + |name|);
    assert Placeholder(name)[2..2 + |name|] == name;
  }

  /**
   * The `includes(name)` shortcut is sound: when the name does not occur,
   * no `${name}` occurs either, so the replace it skips would change nothing.
   */
  lemma SkipIsSound(query: string, name: string, text: string)
    requires !Contains(query, name)
    ensures ReplaceAll(query, Placeholder(name), text) == query
  {
    if Contains(query, Placeholder(name)) {
      PlaceholderHasName(query, name);
    }
    ReplaceAllNoMatch(query, Placeholder(name), text);
  }

  /** A string fragment acts as the global replace of its placeholder, shortcut or not. */
  lemma ApplyStringFragment(query: string, name: string, text: string)
    ensures ApplyFragment(query, (name, StringFragment(text))) == ReplaceAll(query, Placeholder(name), text)
  {
    if !Contains(query, name) {
      SkipIsSound(query, name, text);
    }
  }

  /** Without `${` in the text, resolving against any registry leaves it unchanged. */
  lemma {:induction false} ResolveWithoutMarker(query: string, reg: Registry)
    requires !Contains(query, Marker)
    ensures Resolve(query, reg) == query
    decreases |reg|
  {
    if |reg| > 0 {
      ResolveWithoutMarker(query, reg[..|reg| - 1]);
      var (name, value) := reg[|reg| - 1];
      if value.StringFragment? && Contains(query, name) {
        assert Placeholder(name)[0..2] == Marker;
        if Contains(query, Placeholder(name)) {
          ContainsInner(query, Placeholder(name), 0, 2);
        }
        ReplaceAllNoMatch(query, Placeholder(name), value.text);
      }
    }
  }

  /** Function-valued (and any other non-string) fragments change nothing. */
  lemma {:induction false} ResolveIgnoresNonStrings(query: string, reg: Registry)
    requires forall i | 0 <= i < |reg| :: !reg[i].1.StringFragment?
    ensures Resolve(query, reg) == query
    decreases |reg|
  {
    if |reg| > 0 {
      ResolveIgnoresNonStrings(query, reg[..|reg| - 1]);
    }
  }

  /**
   * Entries apply one after another to the text already rewritten: the
   * registry's tail works on what its head produced.
   */
  lemma {:induction false} ResolveAppend(query: string, a: Registry, b: Registry)
    ensures Resolve(query, a + b) == Resolve(Resolve(query, a), b)
    decreases |b|
  {
    if |b| == 0 {
      assert a + b == a;
    } else {
      assert (a + b)[..|a + b| - 1] == a + b[..|b| - 1];
      ResolveAppend(query, a, b[..|b| - 1]);
    }
  }

  /** Placeholders of two different identifiers can never overlap. */
  lemma PlaceholdersApart(m: string, n: string)
    requires IsIdentifier(m) && IsIdentifier(n) && m != n
    ensures !IsPrefix(Placeholder(m), Placeholder(n))
    ensures Placeholder(n)[0] !in Placeholder(m)[1..]
  {
    var pm, pn := Placeholder(m), Placeholder(n);
    assert pm[1..] == "{" + m + "}";
    assert '$' !in m;
    if |pm| < |pn| {
      assert pn[|pm| - 1] == n[|pm| - 3];
      assert n[|pm| - 3] in n;
      assert pn[..|pm|][|pm| - 1] != pm[|pm| - 1];
    } else if |pm| == |pn| {
      assert pm[2..|pm| - 1] == m;
      assert pn[2..|pn| - 1] == n;
      assert pm != pn;
    }
  }

  /**
   * A `${n}` whose name has no string fragment in the registry stays in
   * the text verbatim, whatever the other fragments replace.
   */
  lemma {:induction false} ResolveKeepsUnregistered(query: string, reg: Registry, n: string)
    requires WellFormedRegistry(reg) && IsIdentifier(n)
    requires Contains(query, Placeholder(n))
    requires forall i | 0 <= i < |reg| :: reg[i].0 == n ==> !reg[i].1.StringFragment?
    ensures Contains(Resolve(query, reg), Placeholder(n))
    decreases |reg|
  {
    if |reg| > 0 {
      var prefix := reg[..|reg| - 1];
      ResolveKeepsUnregistered(query, prefix, n);
      var before := Resolve(query, prefix);
      var (m, value) := reg[|reg| - 1];
      if value.StringFragment? && Contains(before, m) {
        assert m != n;
        var i :| 0 <= i <= |before| - |Placeholder(n)| && OccursAt(before, Placeholder(n), i);
        PlaceholdersApart(m, n);
        PlaceholdersApart(n, m);
        ReplaceAllKeeps(before, Placeholder(m), value.text, Placeholder(n), i);
      }
    }
  }

  /**
   * Order matters: a fragment whose text mentions `${b}` has that
   * placeholder resolved only when `b` comes later in the registry.
   */
  lemma RegistryOrderMatters()
    ensures Resolve("${a}", [("a", StringFragment("${b}")), ("b", StringFragment("X"))]) == "X"
    ensures Resolve("${a}", [("b", StringFragment("X")), ("a", StringFragment("${b}"))]) == "${b}"
  {
    var later: Registry := [("a", StringFragment("${b}")), ("b", StringFragment("X"))];
    var earlier: Registry := [("b", StringFragment("X")), ("a", StringFragment("${b}"))];
    OccursAtContains("${a}", "a", 2);
    OccursAtContains("${b}", "b", 2);
    assert IsPrefix(Placeholder("a"), "${a}");
    assert IsPrefix(Placeholder("b"), "${b}");
    assert ReplaceAll("${a}", Placeholder("a"), "${b}") == "${b}" + ReplaceAll("", Placeholder("a"), "${b}");
    assert ReplaceAll("${b}", Placeholder("b"), "X") == "X" + ReplaceAll("", Placeholder("b"), "X");
    assert later[..1] == [later[0]] && later[..1][..0] == [];
    assert Resolve("${a}", later[..1]) == "${b}";
    assert earlier[..1] == [earlier[0]] && earlier[..1][..0] == [];
    assert !Contains("${a}", "b") by {
      forall i | 0 <= i <= 3 ensures !OccursAt("${a}", "b", i) {
        assert "${a}"[i] != 'b';
      }
    }
    assert Resolve("${a}", earlier[..1]) == "${a}";
  }
}
