/**
 * Query extraction from one source file: the textual pre-check, then a
 * walk over the parsed file's nodes in traversal order.  Page extraction
 * is the same in both copies of gatsby-node.js; static extraction keeps
 * every call site in the root copy and only the last one in the plugin.
 */
module Extract {
  import opened Core
  import opened Text

  /** The text whose presence makes a file a page-query candidate. */
  const PageMarker: string := "export const groqQuery = "

  /** The hook's name: also the static-query candidate marker. */
  const HookName: string := "useGroqQuery"

  const PageExportName: string := "groqQuery"

  predicate IsPageDecl(n: AstNode) {
    n.ExportNamed? && n.declName == PageExportName
  }

  predicate IsHookCall(n: AstNode) {
    n.CallExpr? && n.callee == Some(HookName)
  }

  /** The initializer's source text, delimiters included. */
  function DeclSpan(contents: string, n: AstNode): string
    requires n.ExportNamed?
  {
    JsSubstring(contents, n.initStart, n.initEnd)
  }

  /** The argument's source text without its first and last character (the backticks). */
  function ArgSpan(contents: string, a: Arg): string {
    JsSubstring(contents, a.start + 1, a.end - 1)
  }

  /** `i` is the last `groqQuery` declarator the traversal visits. */
  predicate IsLastPageDecl(nodes: seq<AstNode>, i: int) {
    0 <= i < |nodes| && IsPageDecl(nodes[i]) && forall j | i < j < |nodes| :: !IsPageDecl(nodes[j])
  }

  /** The span the traversal leaves in `pageQuery`: each match overwrites the previous one. */
  function LastDeclSpan(contents: string, nodes: seq<AstNode>): (r: Option<string>)
    ensures r.None? <==> forall i | 0 <= i < |nodes| :: !IsPageDecl(nodes[i])
    ensures r.Some? ==> exists i :: IsLastPageDecl(nodes, i) && r.value == DeclSpan(contents, nodes[i])
    decreases |nodes|
  {
    if |nodes| == 0 then None
    else if IsPageDecl(nodes[|nodes| - 1]) then
      assert IsLastPageDecl(nodes, |nodes| - 1);
      Some(DeclSpan(contents, nodes[|nodes| - 1]))
    else
      var r := LastDeclSpan(contents, nodes[..|nodes| - 1]);
      LastDeclSkipsTail(contents, nodes, nodes[..|nodes| - 1], r);
      r
  }

  /** A last node that is not a declarator changes neither the absence nor the last declarator. */
  lemma LastDeclSkipsTail(contents: string, nodes: seq<AstNode>, init: seq<AstNode>, r: Option<string>)
    requires |nodes| > 0 && init == nodes[..|nodes| - 1] && !IsPageDecl(nodes[|nodes| - 1])
    requires r.None? <==> forall i | 0 <= i < |init| :: !IsPageDecl(init[i])
    requires r.Some? ==> exists i :: IsLastPageDecl(init, i) && r.value == DeclSpan(contents, init[i])
    ensures r.None? <==> forall i | 0 <= i < |nodes| :: !IsPageDecl(nodes[i])
    ensures r.Some? ==> exists i :: IsLastPageDecl(nodes, i) && r.value == DeclSpan(contents, nodes[i])
  {
    assert forall i | 0 <= i < |init| :: init[i] == nodes[i];
    if r.Some? {
      var i :| IsLastPageDecl(init, i) && r.value == DeclSpan(contents, init[i]);
      assert IsLastPageDecl(nodes, i);
    }
  }

  /**
   * The page query of a parsed file: the last `groqQuery` declarator's
   * span, unless that span is empty (falsy).
   */
  function PageQueryText(contents: string, nodes: seq<AstNode>): (r: Option<string>)
    ensures r.Some? ==> r.value != "" && exists i :: IsLastPageDecl(nodes, i) && r.value == DeclSpan(contents, nodes[i])
    ensures r.None? ==> forall i | IsLastPageDecl(nodes, i) :: DeclSpan(contents, nodes[i]) == ""
  {
    match LastDeclSpan(contents, nodes)
    case None => None
    case Some(s) => if s == "" then None else Some(s)
  }

  /** The traversal of `processFilePageQuery`, reassigning `pageQuery` at every match. */
  method FindPageQuery(contents: string, nodes: seq<AstNode>) returns (pageQuery: Option<string>)
    ensures pageQuery == PageQueryText(contents, nodes)
  {
    var last: Option<string> := None;
    for i := 0 to |nodes|
      invariant last == LastDeclSpan(contents, nodes[..i])
    {
      assert nodes[..i + 1][..i] == nodes[..i];
      if IsPageDecl(nodes[i]) {
        last := Some(DeclSpan(contents, nodes[i]));
      }
    }
    assert nodes[..|nodes|] == nodes;
    pageQuery := if last.Some? && last.value != "" then last else None;
  }

  /**
   * `processFilePageQuery`: a file with the marker and a parse yields its
   * page query, stored unprocessed under the hash of the file's path.
   */
  function PageQueryOf(file: SourceFile, hash: Hasher): (r: Option<(Key, Entry)>)
    ensures !Contains(file.contents, PageMarker) || file.ast.None? ==> r.None?
    ensures r.Some? ==> r.value.0 == hash(Str(file.path))
    ensures r.Some? ==> r.value.1.PageEntry? && r.value.1.unprocessed != ""
    ensures r.Some? ==> (exists i :: IsLastPageDecl(file.ast.value, i) && r.value.1.unprocessed == DeclSpan(file.contents, file.ast.value[i]))
    ensures Contains(file.contents, PageMarker) && file.ast.Some? && r.None? ==>
      forall i | IsLastPageDecl(file.ast.value, i) :: DeclSpan(file.contents, file.ast.value[i]) == ""
  {
    if !Contains(file.contents, PageMarker) || file.ast.None? then None
    else match PageQueryText(file.contents, file.ast.value)
      case None => None
      case Some(q) => Some((hash(Str(file.path)), PageEntry(q)))
  }

  method ProcessFilePageQuery(file: SourceFile, hash: Hasher) returns (r: Option<(Key, Entry)>)
    ensures r == PageQueryOf(file, hash)
  {
    if !Contains(file.contents, PageMarker) || file.ast.None? {
      return None;
    }
    var pageQuery := FindPageQuery(file.contents, file.ast.value);
    if pageQuery.None? {
      return None;
    }
    r := Some((hash(Str(file.path)), PageEntry(pageQuery.value)));
  }

  /** `extractQueries` filters out TypeScript declaration files (`.d.ts`). */
  predicate IsDeclarationFile(path: string) {
    |path| >= 5 && path[|path| - 5..] == ".d.ts"
  }

  /** The first arguments of the hook's call sites, in traversal order. */
  function HookArgs(nodes: seq<AstNode>): (r: seq<Arg>)
    ensures |r| <= |nodes|
    ensures r == [] <==> forall i | 0 <= i < |nodes| :: !IsHookCall(nodes[i])
    ensures forall k | 0 <= k < |r| :: exists i | 0 <= i < |nodes| :: IsHookCall(nodes[i]) && nodes[i].arg == r[k]
    decreases |nodes|
  {
    if |nodes| == 0 then []
    else
      var prefix := HookArgs(nodes[..|nodes| - 1]);
      assert forall i | 0 <= i < |nodes| - 1 :: nodes[..|nodes| - 1][i] == nodes[i];
      if IsHookCall(nodes[|nodes| - 1]) then prefix + [nodes[|nodes| - 1].arg] else prefix
  }

  /** Call sites of consecutive parts of the traversal come out in the same order. */
  lemma {:induction false} HookArgsAppend(a: seq<AstNode>, b: seq<AstNode>)
    ensures HookArgs(a + b) == HookArgs(a) + HookArgs(b)
    decreases |b|
  {
    if |b| == 0 {
      assert a + b == a;
    } else {
      assert (a + b)[..|a + b| - 1] == a + b[..|b| - 1];
      HookArgsAppend(a, b[..|b| - 1]);
    }
  }

  /** The static query texts of a parsed file, one per call site in traversal order. */
  function StaticQueries(contents: string, nodes: seq<AstNode>): (qs: seq<string>)
    ensures |qs| == |HookArgs(nodes)|
  {
    seq(|HookArgs(nodes)|, k requires 0 <= k < |HookArgs(nodes)| => ArgSpan(contents, HookArgs(nodes)[k]))
  }

  /**
   * The traversal of `processFileStaticQueries`: one text per call site,
   * in traversal order, each the argument's span without its delimiters.
   */
  method FindStaticQueries(contents: string, nodes: seq<AstNode>) returns (staticQueries: seq<string>)
    ensures staticQueries == StaticQueries(contents, nodes)
    ensures |staticQueries| == |HookArgs(nodes)|
    ensures forall k | 0 <= k < |staticQueries| :: staticQueries[k] == ArgSpan(contents, HookArgs(nodes)[k])
  {
    staticQueries := [];
    for i := 0 to |nodes|
      invariant |staticQueries| == |HookArgs(nodes[..i])|
      invariant forall k | 0 <= k < |staticQueries| :: staticQueries[k] == ArgSpan(contents, HookArgs(nodes[..i])[k])
    {
      assert nodes[..i + 1][..i] == nodes[..i];
      if IsHookCall(nodes[i]) {
        staticQueries := staticQueries + [ArgSpan(contents, nodes[i].arg)];
      }
    }
    assert nodes[..|nodes|] == nodes;
  }

  /**
   * State of the plugin's traversal: it threw on a call whose argument has
   * no quasis, or it holds the last raw quasi seen (None before any).
   */
  datatype QuasiScan = Threw | Seen(last: Option<string>)

  function ScanQuasis(nodes: seq<AstNode>): (r: QuasiScan)
    ensures r.Threw? <==> exists i | 0 <= i < |nodes| :: IsHookCall(nodes[i]) && nodes[i].arg.firstQuasi.None?
    ensures r == Seen(None) <==> forall i | 0 <= i < |nodes| :: !IsHookCall(nodes[i])
    ensures r.Seen? && r.last.Some? ==> exists i | 0 <= i < |nodes| ::
      IsHookCall(nodes[i]) && nodes[i].arg.firstQuasi == r.last && forall j | i < j < |nodes| :: !IsHookCall(nodes[j])
    decreases |nodes|
  {
    if |nodes| == 0 then Seen(None)
    else
      var prefix := ScanQuasis(nodes[..|nodes| - 1]);
      var r := ScanStep(prefix, nodes[|nodes| - 1]);
      ScanQuasisSnoc(nodes, nodes[..|nodes| - 1], prefix);
      r
  }

  /** The traversal's state after one more node. */
  function ScanStep(prefix: QuasiScan, n: AstNode): QuasiScan {
    if prefix.Threw? then Threw
    else if IsHookCall(n) then (if n.arg.firstQuasi.None? then Threw else Seen(n.arg.firstQuasi))
    else prefix
  }

  /** What the traversal's state says about the nodes seen so far. */
  predicate ScanFacts(nodes: seq<AstNode>, r: QuasiScan) {
    && (r.Threw? <==> exists i | 0 <= i < |nodes| :: IsHookCall(nodes[i]) && nodes[i].arg.firstQuasi.None?)
    && (r == Seen(None) <==> forall i | 0 <= i < |nodes| :: !IsHookCall(nodes[i]))
    && (r.Seen? && r.last.Some? ==> exists i | 0 <= i < |nodes| ::
         IsHookCall(nodes[i]) && nodes[i].arg.firstQuasi == r.last && forall j | i < j < |nodes| :: !IsHookCall(nodes[j]))
  }

  lemma ScanQuasisSnoc(nodes: seq<AstNode>, init: seq<AstNode>, prefix: QuasiScan)
    requires |nodes| > 0 && init == nodes[..|nodes| - 1] && ScanFacts(init, prefix)
    ensures ScanFacts(nodes, ScanStep(prefix, nodes[|nodes| - 1]))
  {
    assert forall i | 0 <= i < |init| :: init[i] == nodes[i];
  }

  /**
   * The plugin's single static query: the raw first quasi of the last call
   * site, None when the traversal threw, found no call or found an empty text.
   */
  function StaticQueryText(nodes: seq<AstNode>): Option<string> {
    match ScanQuasis(nodes)
    case Seen(Some(q)) => if q == "" then None else Some(q)
    case _ => None
  }

  /** The plugin's traversal, reassigning `staticQuery` at every call site. */
  method FindLastStaticQuery(nodes: seq<AstNode>) returns (staticQuery: Option<string>)
    ensures staticQuery.Some? ==> staticQuery.value != ""
    ensures staticQuery.Some? ==> (forall i | 0 <= i < |nodes| && IsHookCall(nodes[i]) :: nodes[i].arg.firstQuasi.Some?)
    ensures staticQuery == StaticQueryText(nodes)
  {
    var last: Option<string> := None;
    for i := 0 to |nodes|
      invariant ScanQuasis(nodes[..i]) == Seen(last)
    {
      assert nodes[..i + 1][..i] == nodes[..i];
      if IsHookCall(nodes[i]) {
        if nodes[i].arg.firstQuasi.None? {
          assert ScanQuasis(nodes[..i + 1]) == Threw;
          assert nodes[..i + 1] + nodes[i + 1..] == nodes;
          ScanStaysThrown(nodes[..i + 1], nodes[i + 1..]);
          return None;
        }
        last := nodes[i].arg.firstQuasi;
      }
    }
    assert nodes[..|nodes|] == nodes;
    staticQuery := if last.Some? && last.value != "" then last else None;
  }

  /** Once the traversal has thrown, visiting more nodes does not undo it. */
  lemma {:induction false} ScanStaysThrown(a: seq<AstNode>, b: seq<AstNode>)
    requires ScanQuasis(a).Threw?
    ensures ScanQuasis(a + b).Threw?
  {
    var i :| 0 <= i < |a| && IsHookCall(a[i]) && a[i].arg.firstQuasi.None?;
    assert (a + b)[i] == a[i];
  }
}
