/**
 * The string operations the plugin performs with `includes`, `replace`
 * (a global regular expression matching a literal) and `substring`.
 */
module Text {

  predicate IsPrefix(p: string, s: string) {
    |p| <= |s| && s[..|p|] == p
  }

  /** `t` occurs in `s` starting at index `i`. */
  predicate OccursAt(s: string, t: string, i: int) {
    0 <= i && i + |t| <= |s| && s[i..i + |t|] == t
  }

  /** `s.includes(t)`. */
  predicate Contains(s: string, t: string) {
    exists i | 0 <= i <= |s| - |t| :: OccursAt(s, t, i)
  }

  /**
   * `s.replace(/p/g, r)` for a pattern that matches the literal text `p`
   * and a replacement without `$` patterns: scan left to right, replace
   * each occurrence and resume after it.
   */
  function ReplaceAll(s: string, p: string, r: string): string
    requires |p| > 0
    decreases |s|
  {
    if |s| == 0 then []
    else if IsPrefix(p, s) then r + ReplaceAll(s[|p|..], p, r)
    else [s[0]] + ReplaceAll(s[1..], p, r)
  }

  /** `s.replace(/c/g, '')`: every occurrence of `c` removed. */
  function StripChar(s: string, c: char): (r: string)
    ensures c !in r
    ensures multiset(r) == multiset(s)[c := 0]
    ensures c !in s ==> r == s
  {
    if |s| == 0 then []
    else
      assert s == [s[0]] + s[1..];
      if s[0] == c then StripChar(s[1..], c) else [s[0]] + StripChar(s[1..], c)
  }

  /** JavaScript `s.substring(a, b)`: both bounds clamped to the string, swapped when reversed. */
  function JsSubstring(s: string, a: int, b: int): (r: string)
    ensures 0 <= a <= b <= |s| ==> r == s[a..b]
    ensures 0 <= b <= a <= |s| ==> r == s[b..a]
    ensures |r| <= |s|
  {
    var i := if a < 0 then 0 else if a > |s| then |s| else a;
    var j := if b < 0 then 0 else if b > |s| then |s| else b;
    if i <= j then s[i..j] else s[j..i]
  }

  predicate IsIdentChar(c: char) {
    ('a' <= c <= 'z') || ('A' <= c <= 'Z') || ('0' <= c <= '9') || c == '_'
  }

  /** A name that is spliced into a regular expression unchanged: letters, digits and `_`. */
  predicate IsIdentifier(n: string) {
    |n| > 0 && forall c | c in n :: IsIdentChar(c)
  }

  lemma OccursAtContains(s: string, t: string, i: int)
    requires OccursAt(s, t, i)
    ensures Contains(s, t)
  {
  }

  /** An occurrence inside one part of a concatenation is an occurrence in the whole. */
  lemma ContainsAppend(x: string, y: string, t: string)
    ensures Contains(y, t) ==> Contains(x + y, t)
    ensures Contains(x, t) ==> Contains(x + y, t)
  {
    if Contains(y, t) {
      var i :| 0 <= i <= |y| - |t| && OccursAt(y, t, i);
      assert (x + y)[|x| + i..|x| + i + |t|] == y[i..i + |t|];
      OccursAtContains(x + y, t, |x| + i);
    }
    if Contains(x, t) {
      var i :| 0 <= i <= |x| - |t| && OccursAt(x, t, i);
      assert (x + y)[i..i + |t|] == x[i..i + |t|];
      OccursAtContains(x + y, t, i);
    }
  }

  /** If a text contains `t`, it contains every part of `t`. */
  lemma ContainsInner(s: string, t: string, a: int, b: int)
    requires Contains(s, t) && 0 <= a <= b <= |t|
    ensures Contains(s, t[a..b])
  {
    var i :| 0 <= i <= |s| - |t| && OccursAt(s, t, i);
    forall k | 0 <= k < b - a ensures s[i + a..i + b][k] == t[a..b][k] {
      assert s[i..i + |t|][a + k] == t[a + k];
    }
    assert s[i + a..i + b] == t[a..b];
    OccursAtContains(s, t[a..b], i + a);
  }

  /**
   * Where no occurrence of `p` starts among the first `k` characters, they
   * are copied unchanged.
   */
  lemma {:induction false} ReplaceAllCopies(s: string, p: string, r: string, k: int)
    requires |p| > 0 && 0 <= k <= |s|
    requires forall j | 0 <= j < k :: !IsPrefix(p, s[j..])
    ensures ReplaceAll(s, p, r) == s[..k] + ReplaceAll(s[k..], p, r)
  {
    if k > 0 {
      assert !IsPrefix(p, s[0..]);
      assert s[0..] == s;
      forall j | 0 <= j < k - 1 ensures !IsPrefix(p, s[1..][j..]) {
        assert s[1..][j..] == s[j + 1..];
      }
      ReplaceAllCopies(s[1..], p, r, k - 1);
      assert s[1..][k - 1..] == s[k..];
      assert [s[0]] + s[1..][..k - 1] == s[..k];
    }
  }

  /** With no occurrence of the pattern, the global replace leaves the text unchanged. */
  lemma ReplaceAllNoMatch(s: string, p: string, r: string)
    requires |p| > 0 && !Contains(s, p)
    ensures ReplaceAll(s, p, r) == s
  {
    forall j | 0 <= j < |s| ensures !IsPrefix(p, s[j..]) {
      if IsPrefix(p, s[j..]) {
        assert s[j..j + |p|] == s[j..][..|p|];
        OccursAtContains(s, p, j);
      }
    }
    ReplaceAllCopies(s, p, r, |s|);
    assert s[..|s|] == s;
  }

  /**
   * The leftmost occurrence is replaced and the scan goes on globally in
   * the remainder: `replace` with the `g` flag, not a first-only replace.
   */
  lemma ReplaceAllLeftmost(a: string, p: string, b: string, r: string)
    requires |p| > 0
    requires forall j | 0 <= j < |a| :: !OccursAt(a + p + b, p, j)
    ensures ReplaceAll(a + p + b, p, r) == a + r + ReplaceAll(b, p, r)
  {
    var s := a + p + b;
    forall j | 0 <= j < |a| ensures !IsPrefix(p, s[j..]) {
      assert !OccursAt(s, p, j);
      if j + |p| <= |s| {
        assert s[j..][..|p|] == s[j..j + |p|];
      }
    }
    ReplaceAllCopies(s, p, r, |a|);
    assert s[..|a|] == a;
    assert s[|a|..] == p + b;
    assert IsPrefix(p, p + b);
    assert (p + b)[|p|..] == b;
  }

  /**
   * A text `w` that starts the replaced text starts the original, when `w`
   * cannot reach into a replacement (the replacement is non-empty and its
   * first character is not in `w`).
   */
  lemma {:induction false} PrefixOfReplaced(w: string, s: string, p: string, r: string)
    requires |p| > 0 && |r| > 0 && r[0] !in w
    requires IsPrefix(w, ReplaceAll(s, p, r))
    ensures IsPrefix(w, s)
    decreases |s|
  {
    if |w| > 0 && |s| > 0 {
      var out := ReplaceAll(s, p, r);
      assert out[0] == w[0] && w[0] in w;
      if IsPrefix(p, s) {
        assert false;
      } else {
        var rest := ReplaceAll(s[1..], p, r);
        assert ReplaceAll(s, p, r) == [s[0]] + rest;
        assert w[0] == s[0];
        assert w[1..] == rest[..|w| - 1];
        assert r[0] !in w[1..];
        PrefixOfReplaced(w[1..], s[1..], p, r);
        assert s[..|w|] == [s[0]] + s[1..][..|w| - 1];
      }
    }
  }

  /**
   * After the global replace no occurrence of the pattern is left, when the
   * replacement cannot start one (it lacks the pattern's first character)
   * nor complete one begun before it (its first character is not in the
   * rest of the pattern).
   */
  lemma {:induction false} ReplaceAllEliminates(s: string, p: string, r: string)
    requires |p| > 0 && |r| > 0
    requires p[0] !in r && r[0] !in p[1..]
    ensures !Contains(ReplaceAll(s, p, r), p)
    decreases |s|
  {
    if |s| > 0 {
      if IsPrefix(p, s) {
        ReplaceAllEliminates(s[|p|..], p, r);
        NoneAfterReplacement(r, ReplaceAll(s[|p|..], p, r), p);
      } else {
        ReplaceAllEliminates(s[1..], p, r);
        var rest := ReplaceAll(s[1..], p, r);
        if s[0] == p[0] && IsPrefix(p[1..], rest) {
          PrefixOfReplaced(p[1..], s[1..], p, r);
          assert false;
        }
        NoneAfterCopy(s[0], rest, p);
      }
    }
  }

  /** A replacement text that cannot hold or start `p`, followed by text without `p`, holds no `p`. */
  lemma NoneAfterReplacement(r: string, rest: string, p: string)
    requires |p| > 0 && |r| > 0
    requires p[0] !in r && !Contains(rest, p)
    ensures !Contains(r + rest, p)
  {
    var out := r + rest;
    if Contains(out, p) {
      var i :| 0 <= i <= |out| - |p| && OccursAt(out, p, i);
      if i < |r| {
        assert false;
      } else {
        assert rest[i - |r|..i - |r| + |p|] == out[i..i + |p|];
        OccursAtContains(rest, p, i - |r|);
      }
    }
  }

  /** A character followed by text without `p` holds no `p`, unless the two begin one. */
  lemma NoneAfterCopy(c: char, rest: string, p: string)
    requires |p| > 0 && !Contains(rest, p)
    requires c == p[0] ==> !IsPrefix(p[1..], rest)
    ensures !Contains([c] + rest, p)
  {
    var out := [c] + rest;
    if Contains(out, p) {
      var i :| 0 <= i <= |out| - |p| && OccursAt(out, p, i);
      if i == 0 {
        assert false;
      } else {
        assert rest[i - 1..i - 1 + |p|] == out[i..i + |p|];
        OccursAtContains(rest, p, i - 1);
      }
    }
  }

  /**
   * An occurrence of `t` survives the global replace of `p` when no
   * occurrence of `p` can overlap it: neither text is a prefix of the
   * other, `t` does not start inside `p`, and `p` does not start inside `t`.
   */
  lemma {:induction false} ReplaceAllKeeps(s: string, p: string, r: string, t: string, i: int)
    requires |p| > 0 && |t| > 0
    requires OccursAt(s, t, i)
    requires !IsPrefix(p, t) && !IsPrefix(t, p)
    requires t[0] !in p[1..] && p[0] !in t[1..]
    ensures Contains(ReplaceAll(s, p, r), t)
    decreases |s|
  {
    if i == 0 {
      forall j | 0 <= j < |t| ensures !IsPrefix(p, s[j..]) {
        if j == 0 {
          assert s[0..] == s;
          if IsPrefix(p, s) {
            assert false;
          }
        } else {
          assert s[j] == t[j];
          assert t[j] in t[1..];
        }
      }
      ReplaceAllCopies(s, p, r, |t|);
      assert ReplaceAll(s, p, r)[..|t|] == t;
      OccursAtContains(ReplaceAll(s, p, r), t, 0);
    } else {
      assert s[i] == t[0];
      assert i < |p| ==> p[1..][i - 1] == p[i];
      assert i < |p| <= |s| ==> s[..|p|][i] == s[i];
      if IsPrefix(p, s) {
        if i < |p| {
          assert false;
        }
        assert s[|p|..][i - |p|..i - |p| + |t|] == s[i..i + |t|];
        ReplaceAllKeeps(s[|p|..], p, r, t, i - |p|);
        ContainsAppend(r, ReplaceAll(s[|p|..], p, r), t);
      } else {
        assert s[1..][i - 1..i - 1 + |t|] == s[i..i + |t|];
        ReplaceAllKeeps(s[1..], p, r, t, i - 1);
        ContainsAppend([s[0]], ReplaceAll(s[1..], p, r), t);
      }
    }
  }

  /** An occurrence in a suffix is an occurrence in the whole text. */
  lemma ContainsSuffix(s: string, t: string, k: int)
    requires 0 <= k <= |s|
    ensures Contains(s[k..], t) ==> Contains(s, t)
  {
    ContainsAppend(s[..k], s[k..], t);
    assert s[..k] + s[k..] == s;
  }

  /**
   * The global replace of `p` creates no occurrence of a text `t` that the
   * original lacks, when the replacement lacks `t`'s first character and
   * its own first character is not in the rest of `t`.
   */
  lemma {:induction false} ReplaceAllAddsNone(s: string, p: string, r: string, t: string)
    requires |p| > 0 && |r| > 0 && |t| > 0
    requires t[0] !in r && r[0] !in t[1..]
    requires !Contains(s, t)
    ensures !Contains(ReplaceAll(s, p, r), t)
    decreases |s|
  {
    if |s| > 0 {
      if IsPrefix(p, s) {
        ContainsSuffix(s, t, |p|);
        ReplaceAllAddsNone(s[|p|..], p, r, t);
        AddsNoneAfterReplacement(r, ReplaceAll(s[|p|..], p, r), t);
      } else {
        ContainsSuffix(s, t, 1);
        ReplaceAllAddsNone(s[1..], p, r, t);
        var rest := ReplaceAll(s[1..], p, r);
        if IsPrefix(t[1..], rest) {
          PrefixOfReplaced(t[1..], s[1..], p, r);
        }
        assert s == [s[0]] + s[1..];
        AddsNoneAfterCopy(s[0], s[1..], rest, t);
      }
    }
  }

  /** A replacement lacking `t`'s first character, followed by a text without `t`, has no `t`. */
  lemma AddsNoneAfterReplacement(r: string, rest: string, t: string)
    requires |t| > 0 && t[0] !in r && !Contains(rest, t)
    ensures !Contains(r + rest, t)
  {
    var out := r + rest;
    if Contains(out, t) {
      var i :| 0 <= i <= |out| - |t| && OccursAt(out, t, i);
      assert out[i] == t[0];
      if i < |r| {
        assert false;
      } else {
        assert rest[i - |r|..i - |r| + |t|] == out[i..i + |t|];
        OccursAtContains(rest, t, i - |r|);
        assert false;
      }
    }
  }

  /**
   * The step of the global replace that copies a character `c` adds no
   * occurrence of `t`, when the rest of `t` can start the replaced tail
   * only if it starts the original tail.
   */
  lemma AddsNoneAfterCopy(c: char, tail: string, rest: string, t: string)
    requires |t| > 0 && !Contains([c] + tail, t) && !Contains(rest, t)
    requires IsPrefix(t[1..], rest) ==> IsPrefix(t[1..], tail)
    ensures !Contains([c] + rest, t)
  {
    var out := [c] + rest;
    if Contains(out, t) {
      var i :| 0 <= i <= |out| - |t| && OccursAt(out, t, i);
      if i == 0 {
        assert rest[..|t| - 1] == t[1..];
        assert ([c] + tail)[..|t|] == [c] + tail[..|t| - 1];
        OccursAtContains([c] + tail, t, 0);
        assert false;
      } else {
        assert rest[i - 1..i - 1 + |t|] == out[i..i + |t|];
        OccursAtContains(rest, t, i - 1);
        assert false;
      }
    }
  }

  /** A leading part without the pattern's first character is copied unchanged. */
  lemma ReplaceAllSkipsFree(a: string, b: string, p: string, r: string)
    requires |p| > 0 && p[0] !in a
    ensures ReplaceAll(a + b, p, r) == a + ReplaceAll(b, p, r)
  {
    var s := a + b;
    forall j | 0 <= j < |a| ensures !IsPrefix(p, s[j..]) {
      assert s[j..][0] == a[j];
    }
    ReplaceAllCopies(s, p, r, |a|);
    assert s[..|a|] == a && s[|a|..] == b;
  }

  /** A text containing `t` contains `t`'s first character. */
  lemma ContainsFirst(s: string, t: string)
    requires |t| > 0 && Contains(s, t)
    ensures t[0] in s
  {
    var i :| 0 <= i <= |s| - |t| && OccursAt(s, t, i);
    assert s[i] == s[i..i + |t|][0];
  }

  /** Removing a character distributes over concatenation, so order is kept. */
  lemma {:induction false} StripCharAppend(x: string, y: string, c: char)
    ensures StripChar(x + y, c) == StripChar(x, c) + StripChar(y, c)
  {
    if |x| > 0 {
      assert (x + y)[1..] == x[1..] + y;
      StripCharAppend(x[1..], y, c);
    } else {
      assert x + y == y;
    }
  }
}
