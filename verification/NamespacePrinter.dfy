/**
  Printing moved declarations into a new file.

  The printer closes and opens namespaces between declarations as far as their paths differ.  What it
  prints is read back here with a stack of open namespaces.
  */
module NamespacePrinter {

  import opened Wrappers
  import opened Declarations

  datatype Token =
    | IfNotDefined(guard: string)
    | Define(guard: string)
    | EndIf(guard: string)
    | Include(line: string)
    | Blank
    | Open(name: string)
    | Close(name: string)
    | Source(decl: Decl)

  // ------------------------------------------------------------------ the path of a declaration

  /** The names of the namespaces around a declaration, outermost first, up to the end of the search. */
  function NamespacesIn(contexts: seq<Context>): seq<string> {
    if contexts == [] || Stops(contexts[0]) then
      []
    else if contexts[0].Namespace? then
      NamespacesIn(contexts[1..]) + [contexts[0].name]
    else
      NamespacesIn(contexts[1..])
  }

  /** The search for namespaces goes no further. */
  predicate Stops(c: Context) {
    c.TranslationUnit? || c.LinkageSpec?
  }

  /** A namespace stands around a linkage specification, or around the whole unit. */
  predicate HiddenNamespace(contexts: seq<Context>) {
    exists n, m :: 0 <= n < m < |contexts| &&
      Stops(contexts[n]) && contexts[m].Namespace?
  }

  lemma {:induction false} EnclosingIsEmpty(contexts: seq<Context>)
    ensures Names(contexts) == [] <==> forall n :: 0 <= n < |contexts| ==> !contexts[n].Namespace?
  {
    if contexts != [] {
      EnclosingIsEmpty(contexts[1..]);
      assert forall n :: 0 < n < |contexts| ==> contexts[n] == contexts[1..][n - 1];
      assert forall n :: 0 <= n < |contexts| - 1 ==> contexts[1..][n] == contexts[n + 1];
    }
  }

  /** A namespace around a linkage specification is not found. */
  lemma LinkageHides()
    ensures var contexts := [LinkageSpec, Namespace("a"), TranslationUnit];
      NamespacesIn(contexts) == [] && Names(contexts) == ["a"]
  {
    var contexts := [LinkageSpec, Namespace("a"), TranslationUnit];
    assert contexts[1..] == [Namespace("a"), TranslationUnit] && contexts[1..][1..] == [TranslationUnit];
    assert Names([TranslationUnit]) == [];
    assert Names(contexts[1..]) == ["a"];
  }

  /** The search finds the namespaces inside the first linkage specification, or inside the whole unit. */
  lemma {:induction false} SearchStops(contexts: seq<Context>) returns (k: nat)
    ensures k <= |contexts| && NamespacesIn(contexts) == Names(contexts[..k])
    ensures (k == |contexts| || Stops(contexts[k])) && forall n :: 0 <= n < k ==> !Stops(contexts[n])
  {
    k := 0;
    if contexts != [] && !Stops(contexts[0]) {
      k := SearchStops(contexts[1..]);
      k := k + 1;
      assert contexts[..k][1..] == contexts[1..][..k - 1];
    }
  }

  /** The search finds the whole path exactly if no namespace stands around a linkage specification. */
  lemma {:induction false} PathIsComplete(contexts: seq<Context>)
    ensures NamespacesIn(contexts) == Names(contexts) <==> !HiddenNamespace(contexts)
    ensures |NamespacesIn(contexts)| <= |Names(contexts)|
  {
    if contexts != [] {
      PathIsComplete(contexts[1..]);
      EnclosingIsEmpty(contexts[1..]);
      var rest := contexts[1..];
      assert forall n :: 0 < n < |contexts| ==> contexts[n] == rest[n - 1];
      assert forall n :: 0 <= n < |rest| ==> rest[n] == contexts[n + 1];
      if Stops(contexts[0]) {
        if Names(rest) != [] {
          var m :| 0 <= m < |rest| && rest[m].Namespace?;
          assert contexts[m + 1].Namespace? && HiddenNamespace(contexts);
        }
      } else {
        assert HiddenNamespace(contexts) <==> HiddenNamespace(rest) by {
          if HiddenNamespace(rest) {
            var n, m :| 0 <= n < m < |rest| &&
              Stops(rest[n]) && rest[m].Namespace?;
            assert contexts[n + 1] == rest[n] && contexts[m + 1] == rest[m];
          }
          if HiddenNamespace(contexts) {
            var n, m :| 0 <= n < m < |contexts| &&
              Stops(contexts[n]) && contexts[m].Namespace?;
            assert contexts[n] == rest[n - 1] && contexts[m] == rest[m - 1];
          }
        }
        if contexts[0].Namespace? {
          var name := [contexts[0].name];
          assert NamespacesIn(rest) == (NamespacesIn(rest) + name)[..|NamespacesIn(rest)|];
          assert Names(rest) == (Names(rest) + name)[..|Names(rest)|];
        }
      }
    }
  }

  function Reversed<T>(s: seq<T>): (r: seq<T>)
    ensures |r| == |s| && forall n :: 0 <= n < |s| ==> r[n] == s[|s| - 1 - n]
  {
    if s == [] then [] else Reversed(s[1..]) + [s[0]]
  }

  method GetNamespaces(ast: Ast, d: Decl) returns (namespaces: seq<string>)
    ensures namespaces == NamespacesIn(ast.Contexts(d))
  {
    var contexts := ast.Contexts(d);
    namespaces := [];
    var n := 0;
    while n < |contexts|
      invariant n <= |contexts|
      invariant NamespacesIn(contexts) == NamespacesIn(contexts[n..]) + Reversed(namespaces)
    {
      if Stops(contexts[n]) {
        break;
      }
      if contexts[n].Namespace? {
        ghost var before := namespaces;
        namespaces := namespaces + [contexts[n].name];
        assert Reversed(namespaces) == [contexts[n].name] + Reversed(before);
      }
      n := n + 1;
    }
    namespaces := Reversed(namespaces);
  }

  // ------------------------------------------------------------------ reading what was printed

  /** The namespaces that are open, and each declaration printed so far with its path. */
  datatype Scope = Scope(stack: seq<string>, placed: seq<(Decl, seq<string>)>)

  /** Reads tokens with a stack; a namespace is closed by its own name, and must be the innermost. */
  function Read(scope: Option<Scope>, tokens: seq<Token>): Option<Scope>
    decreases |tokens|
  {
    if tokens == [] || scope.None? then scope else Read(Advance(scope.value, tokens[0]), tokens[1..])
  }

  function Advance(scope: Scope, token: Token): Option<Scope> {
    match token
    case Open(name) => Some(scope.(stack := scope.stack + [name]))
    case Close(name) =>
      if scope.stack != [] && scope.stack[|scope.stack| - 1] == name
      then Some(scope.(stack := scope.stack[..|scope.stack| - 1]))
      else None
    case Source(d) => Some(scope.(placed := scope.placed + [(d, scope.stack)]))
    case _ => Some(scope)
  }

  const START := Some(Scope([], []))

  lemma {:induction false} ReadConcatenation(scope: Option<Scope>, a: seq<Token>, b: seq<Token>)
    ensures Read(scope, a + b) == Read(Read(scope, a), b)
    decreases |a|
  {
    if a == [] {
      assert a + b == b;
    } else if scope.Some? {
      assert (a + b)[1..] == a[1..] + b;
      ReadConcatenation(Advance(scope.value, a[0]), a[1..], b);
    }
  }

  /** Every declaration, in order, with the path that the search finds for it. */
  function Placement(ast: Ast, decls: seq<Decl>): seq<(Decl, seq<string>)> {
    seq(|decls|, n requires 0 <= n < |decls| => (decls[n], NamespacesIn(ast.Contexts(decls[n]))))
  }

  // ------------------------------------------------------------------ printing

  /** Closes the innermost namespaces down to `depth` of them. */
  function Closing(path: seq<string>, depth: nat): seq<Token> {
    if |path| <= depth then [] else [Close(path[|path| - 1])] + Closing(path[..|path| - 1], depth)
  }

  function Opening(path: seq<string>, depth: nat): seq<Token>
    decreases |path| - depth
  {
    if |path| <= depth then [] else [Open(path[depth])] + Opening(path, depth + 1)
  }

  /** What is printed to get from one path to the next: an empty line unless a namespace was opened. */
  function Between(current: seq<string>, next: seq<string>): seq<Token> {
    var depth := CommonPrefix(current, next);
    Closing(current, depth) +
    (if depth < |current| then [Blank] else []) +
    Opening(next, depth) +
    (if depth == |next| then [Blank] else [])
  }

  function PathOf(ast: Ast, d: Decl): seq<string> {
    NamespacesIn(ast.Contexts(d))
  }

  function LastPath(ast: Ast, decls: seq<Decl>): seq<string> {
    if decls == [] then [] else PathOf(ast, decls[|decls| - 1])
  }

  function Body(ast: Ast, decls: seq<Decl>): seq<Token> {
    if decls == [] then
      []
    else
      var before, d := decls[..|decls| - 1], decls[|decls| - 1];
      Body(ast, before) + Between(LastPath(ast, before), PathOf(ast, d)) + [Source(d)]
  }

  /** A guard is made of capital letters, digits and underscores. */
  function GuardName(fileName: string): string {
    seq(|fileName|, n requires 0 <= n < |fileName| => GuardChar(fileName[n]))
  }

  function GuardChar(c: char): char {
    if 'a' <= c <= 'z' then c - 'a' + 'A'
    else if 'A' <= c <= 'Z' || '0' <= c <= '9' then c
    else '_'
  }

  /** What stands before the declarations. */
  function Prologue(includes: seq<string>, fileName: string, isHeader: bool, oldHeaderInclude: string): seq<Token> {
    (if isHeader then [IfNotDefined(GuardName(fileName)), Define(GuardName(fileName)), Blank] else []) +
    (if oldHeaderInclude != "" then [Include(oldHeaderInclude)] else []) +
    seq(|includes|, n requires 0 <= n < |includes| => Include(includes[n])) +
    (if includes != [] then [Blank] else [])
  }

  function Epilogue(fileName: string, isHeader: bool): seq<Token> {
    if isHeader then [Blank, EndIf(GuardName(fileName))] else []
  }

  predicate Neutral(token: Token) {
    !token.Open? && !token.Close? && !token.Source?
  }

  lemma {:induction false} NeutralTokens(scope: Option<Scope>, tokens: seq<Token>)
    requires forall token <- tokens :: Neutral(token)
    ensures Read(scope, tokens) == scope
  {
    if tokens != [] && scope.Some? {
      assert tokens[0] in tokens && forall token <- tokens[1..] :: token in tokens;
      NeutralTokens(scope, tokens[1..]);
    }
  }

  function Printed(
    ast: Ast, includes: seq<string>, decls: seq<Decl>, fileName: string, isHeader: bool, oldHeaderInclude: string)
    : seq<Token>
  {
    Prologue(includes, fileName, isHeader, oldHeaderInclude) +
    Body(ast, decls) +
    Closing(LastPath(ast, decls), 0) +
    Epilogue(fileName, isHeader)
  }

  /** The loops of `createInsertedReplacements`. */
  method CreateInsertedReplacements(
    ast: Ast, includes: seq<string>, decls: seq<Decl>, fileName: string, isHeader: bool, oldHeaderInclude: string)
    returns (code: seq<Token>)
    ensures code == Printed(ast, includes, decls, fileName, isHeader, oldHeaderInclude)
  {
    code := [];
    var guard := GuardName(fileName);
    if isHeader {
      code := [IfNotDefined(guard), Define(guard), Blank];
    }
    if oldHeaderInclude != "" {
      code := code + [Include(oldHeaderInclude)];
    }
    ghost var start := code;
    for n := 0 to |includes|
      invariant code == start + seq(n, m requires 0 <= m < n => Include(includes[m]))
    {
      code := code + [Include(includes[n])];
    }
    if includes != [] {
      code := code + [Blank];
    }
    assert code == Prologue(includes, fileName, isHeader, oldHeaderInclude);
    var body, current := PrintDecls(ast, decls);
    code := code + body;
    var closing := CloseNamespaces(current, 0);
    code := code + closing;
    if isHeader {
      code := code + [Blank, EndIf(guard)];
    }
  }

  method PrintDecls(ast: Ast, decls: seq<Decl>) returns (code: seq<Token>, current: seq<string>)
    ensures code == Body(ast, decls) && current == LastPath(ast, decls)
  {
    code, current := [], [];
    hide Body, LastPath, Between;
    NothingPrinted(ast, decls);
    for n := 0 to |decls|
      invariant code == Body(ast, decls[..n]) && current == LastPath(ast, decls[..n])
    {
      var path := GetNamespaces(ast, decls[n]);
      var between := PrintBetween(current, path);
      OneMorePrinted(ast, decls, n);
      code := code + between + [Source(decls[n])];
      current := path;
    }
    assert decls[..|decls|] == decls;
  }

  lemma NothingPrinted(ast: Ast, decls: seq<Decl>)
    ensures Body(ast, decls[..0]) == [] && LastPath(ast, decls[..0]) == []
  {
  }

  lemma OneMorePrinted(ast: Ast, decls: seq<Decl>, n: nat)
    requires n < |decls|
    ensures Body(ast, decls[..n + 1]) ==
      Body(ast, decls[..n]) + Between(LastPath(ast, decls[..n]), PathOf(ast, decls[n])) + [Source(decls[n])]
    ensures LastPath(ast, decls[..n + 1]) == PathOf(ast, decls[n])
  {
    hide Between, PathOf;
    assert decls[..n + 1][..n] == decls[..n];
  }

  method PrintBetween(current: seq<string>, path: seq<string>) returns (r: seq<Token>)
    ensures r == Between(current, path)
  {
    var depth := SkipCommonPrefix(current, path);
    r := CloseNamespaces(current, depth);
    if depth < |current| {
      r := r + [Blank];
    }
    var opening := OpenNamespaces(path, depth);
    r := r + opening;
    if depth == |path| {
      r := r + [Blank];
    }
  }

  method SkipCommonPrefix(a: seq<string>, b: seq<string>) returns (n: nat)
    ensures n == CommonPrefix(a, b)
  {
    n := 0;
    while n < |a| && n < |b|
      invariant n <= |a| && n <= |b| && CommonPrefix(a, b) == n + CommonPrefix(a[n..], b[n..])
    {
      if a[n] != b[n] {
        break;
      }
      n := n + 1;
    }
  }

  lemma Associates(a: seq<Token>, b: seq<Token>, c: seq<Token>)
    ensures a + (b + c) == (a + b) + c
  {
  }

  method CloseNamespaces(path: seq<string>, depth: nat) returns (r: seq<Token>)
    requires depth <= |path|
    ensures r == Closing(path, depth)
  {
    r := [];
    var n := |path|;
    assert path[..n] == path && [] + Closing(path, depth) == Closing(path, depth);
    while n > depth
      invariant depth <= n <= |path|
      invariant Closing(path, depth) == r + Closing(path[..n], depth)
    {
      n := n - 1;
      assert path[..n + 1][..n] == path[..n];
      assert Closing(path[..n + 1], depth) == [Close(path[n])] + Closing(path[..n], depth);
      Associates(r, [Close(path[n])], Closing(path[..n], depth));
      r := r + [Close(path[n])];
    }
    assert Closing(path[..n], depth) == [] && r + [] == r;
  }

  method OpenNamespaces(path: seq<string>, depth: nat) returns (r: seq<Token>)
    requires depth <= |path|
    ensures r == Opening(path, depth)
  {
    r := [];
    for n := depth to |path|
      invariant Opening(path, depth) == r + Opening(path, n)
    {
      Associates(r, [Open(path[n])], Opening(path, n + 1));
      r := r + [Open(path[n])];
    }
  }

  // ------------------------------------------------------------------ what was printed

  lemma ReadClose(scope: Scope, name: string, rest: seq<Token>)
    requires scope.stack != [] && scope.stack[|scope.stack| - 1] == name
    ensures Read(Some(scope), [Close(name)] + rest) ==
      Read(Some(scope.(stack := scope.stack[..|scope.stack| - 1])), rest)
  {
    assert ([Close(name)] + rest)[1..] == rest;
  }

  lemma ReadNothing(scope: Option<Scope>)
    ensures Read(scope, []) == scope
  {
  }

  lemma {:induction false} ClosingIsRead(path: seq<string>, depth: nat, placed: seq<(Decl, seq<string>)>)
    requires depth <= |path|
    ensures Read(Some(Scope(path, placed)), Closing(path, depth)) == Some(Scope(path[..depth], placed))
  {
    hide Read;
    if depth < |path| {
      var n := |path| - 1;
      ClosingIsRead(path[..n], depth, placed);
      ReadClose(Scope(path, placed), path[n], Closing(path[..n], depth));
      assert Closing(path, depth) == [Close(path[n])] + Closing(path[..n], depth);
      assert path[..n][..depth] == path[..depth];
    } else {
      assert path[..depth] == path;
      ReadNothing(Some(Scope(path, placed)));
    }
  }

  lemma {:induction false} OpeningIsRead(path: seq<string>, depth: nat, placed: seq<(Decl, seq<string>)>)
    requires depth <= |path|
    ensures Read(Some(Scope(path[..depth], placed)), Opening(path, depth)) == Some(Scope(path, placed))
    decreases |path| - depth
  {
    if depth < |path| {
      assert path[..depth] + [path[depth]] == path[..depth + 1];
      OpeningIsRead(path, depth + 1, placed);
      assert Opening(path, depth)[1..] == Opening(path, depth + 1);
    } else {
      assert path[..depth] == path;
    }
  }

  lemma BetweenIsRead(current: seq<string>, next: seq<string>, placed: seq<(Decl, seq<string>)>)
    ensures Read(Some(Scope(current, placed)), Between(current, next)) == Some(Scope(next, placed))
  {
    hide Read, Closing, Opening;
    var scope, depth := Some(Scope(current, placed)), CommonPrefix(current, next);
    var closing, opening := Closing(current, depth), Opening(next, depth);
    var blank := if depth < |current| then [Blank] else [];
    var last := if depth == |next| then [Blank] else [];
    ClosingIsRead(current, depth, placed);
    OpeningIsRead(next, depth, placed);
    ReadConcatenation(scope, closing, blank);
    NeutralTokens(Read(scope, closing), blank);
    ReadConcatenation(scope, closing + blank, opening);
    ReadConcatenation(scope, closing + blank + opening, last);
    NeutralTokens(Some(Scope(next, placed)), last);
  }

  lemma ReadSource(scope: Scope, d: Decl)
    ensures Read(Some(scope), [Source(d)]) == Some(scope.(placed := scope.placed + [(d, scope.stack)]))
  {
  }

  lemma {:induction false} BodyIsRead(ast: Ast, decls: seq<Decl>)
    ensures Read(START, Body(ast, decls)) == Some(Scope(LastPath(ast, decls), Placement(ast, decls)))
  {
    hide Read, Between;
    if decls == [] {
      NeutralTokens(START, []);
      assert Placement(ast, decls) == [];
    } else {
      var before, d := decls[..|decls| - 1], decls[|decls| - 1];
      var between := Between(LastPath(ast, before), PathOf(ast, d));
      BodyIsRead(ast, before);
      BetweenIsRead(LastPath(ast, before), PathOf(ast, d), Placement(ast, before));
      ReadConcatenation(START, Body(ast, before), between);
      ReadConcatenation(START, Body(ast, before) + between, [Source(d)]);
      ReadSource(Scope(PathOf(ast, d), Placement(ast, before)), d);
      assert Placement(ast, decls) == Placement(ast, before) + [(d, PathOf(ast, d))];
    }
  }

  /**
    Every declaration is printed once, in order, under exactly its path; every namespace is closed
    while it is the innermost one; and none is left open.
    */
  lemma PrintedIsPlaced(
    ast: Ast, includes: seq<string>, decls: seq<Decl>, fileName: string, isHeader: bool, oldHeaderInclude: string)
    ensures Read(START, Printed(ast, includes, decls, fileName, isHeader, oldHeaderInclude)) ==
      Some(Scope([], Placement(ast, decls)))
  {
    var prologue, epilogue := Prologue(includes, fileName, isHeader, oldHeaderInclude), Epilogue(fileName, isHeader);
    PrologueIsNeutral(includes, fileName, isHeader, oldHeaderInclude);
    hide Read, Body, Closing, Prologue, Epilogue;
    var body, closing := Body(ast, decls), Closing(LastPath(ast, decls), 0);
    NeutralTokens(START, prologue);
    BodyIsRead(ast, decls);
    ReadConcatenation(START, prologue, body);
    ClosingIsRead(LastPath(ast, decls), 0, Placement(ast, decls));
    ReadConcatenation(START, prologue + body, closing);
    ReadConcatenation(START, prologue + body + closing, epilogue);
    NeutralTokens(Some(Scope([], Placement(ast, decls))), epilogue);
  }

  // ------------------------------------------------------------------ what stands around the declarations

  /** A token of the declarations and their namespaces, or an empty line. */
  predicate OfBody(token: Token) {
    token.Open? || token.Close? || token.Source? || token.Blank?
  }

  predicate AllOfBody(tokens: seq<Token>) {
    forall token <- tokens :: OfBody(token)
  }

  lemma {:induction false} ClosingIsOfBody(path: seq<string>, depth: nat)
    ensures AllOfBody(Closing(path, depth))
  {
    if depth < |path| {
      ClosingIsOfBody(path[..|path| - 1], depth);
    }
  }

  lemma {:induction false} OpeningIsOfBody(path: seq<string>, depth: nat)
    ensures AllOfBody(Opening(path, depth))
    decreases |path| - depth
  {
    if depth < |path| {
      OpeningIsOfBody(path, depth + 1);
    }
  }

  lemma {:induction false} BodyIsOfBody(ast: Ast, decls: seq<Decl>)
    ensures AllOfBody(Body(ast, decls))
  {
    hide Closing, Opening, PathOf, LastPath;
    if decls != [] {
      var before, next := decls[..|decls| - 1], PathOf(ast, decls[|decls| - 1]);
      var current := LastPath(ast, before);
      BodyIsOfBody(ast, before);
      ClosingIsOfBody(current, CommonPrefix(current, next));
      OpeningIsOfBody(next, CommonPrefix(current, next));
    }
  }

  /** The includes among the tokens, in order. */
  function IncludesOf(tokens: seq<Token>): seq<string> {
    if tokens == [] then []
    else (if tokens[0].Include? then [tokens[0].line] else []) + IncludesOf(tokens[1..])
  }

  lemma {:induction false} IncludesOfConcatenation(a: seq<Token>, b: seq<Token>)
    ensures IncludesOf(a + b) == IncludesOf(a) + IncludesOf(b)
  {
    if a == [] {
      assert a + b == b;
    } else {
      assert (a + b)[1..] == a[1..] + b;
      IncludesOfConcatenation(a[1..], b);
    }
  }

  lemma {:induction false} NoIncludes(tokens: seq<Token>)
    requires forall token <- tokens :: !token.Include?
    ensures IncludesOf(tokens) == []
  {
    if tokens != [] {
      assert forall token <- tokens[1..] :: token in tokens;
      NoIncludes(tokens[1..]);
    }
  }

  lemma NoMoreIncludes(a: seq<Token>, b: seq<Token>)
    requires forall token <- b :: !token.Include?
    ensures IncludesOf(a + b) == IncludesOf(a)
  {
    NoIncludes(b);
    IncludesOfConcatenation(a, b);
  }

  lemma {:induction false} AllIncludes(tokens: seq<Token>, lines: seq<string>)
    requires |tokens| == |lines| && forall n :: 0 <= n < |lines| ==> tokens[n] == Include(lines[n])
    ensures IncludesOf(tokens) == lines
  {
    if tokens != [] {
      AllIncludes(tokens[1..], lines[1..]);
    }
  }

  lemma PrologueIncludes(includes: seq<string>, fileName: string, isHeader: bool, oldHeaderInclude: string)
    ensures IncludesOf(Prologue(includes, fileName, isHeader, oldHeaderInclude)) ==
      (if oldHeaderInclude != "" then [oldHeaderInclude] else []) + includes
  {
    var guard := if isHeader then [IfNotDefined(GuardName(fileName)), Define(GuardName(fileName)), Blank] else [];
    var former := if oldHeaderInclude != "" then [Include(oldHeaderInclude)] else [];
    var given := seq(|includes|, n requires 0 <= n < |includes| => Include(includes[n]));
    var last := if includes != [] then [Blank] else [];
    assert Prologue(includes, fileName, isHeader, oldHeaderInclude) == guard + former + given + last;
    NoIncludes(guard);
    AllIncludes(former, if oldHeaderInclude != "" then [oldHeaderInclude] else []);
    AllIncludes(given, includes);
    NoIncludes(last);
    hide IncludesOf, Prologue;
    IncludesOfConcatenation(guard + former + given, last);
    IncludesOfConcatenation(guard + former, given);
    IncludesOfConcatenation(guard, former);
  }

  /** The new file includes the old header, if it is to, and then the given lines, and nothing else. */
  lemma IncludesArePrinted(
    ast: Ast, includes: seq<string>, decls: seq<Decl>, fileName: string, isHeader: bool, oldHeaderInclude: string)
    ensures IncludesOf(Printed(ast, includes, decls, fileName, isHeader, oldHeaderInclude)) ==
      (if oldHeaderInclude != "" then [oldHeaderInclude] else []) + includes
  {
    var prologue, epilogue := Prologue(includes, fileName, isHeader, oldHeaderInclude), Epilogue(fileName, isHeader);
    hide IncludesOf, Body, Closing, Prologue, Epilogue, Neutral;
    PrologueIsNeutral(includes, fileName, isHeader, oldHeaderInclude);
    var body, closing := Body(ast, decls), Closing(LastPath(ast, decls), 0);
    PrologueIncludes(includes, fileName, isHeader, oldHeaderInclude);
    BodyIsOfBody(ast, decls);
    ClosingIsOfBody(LastPath(ast, decls), 0);
    NoMoreIncludes(prologue, body);
    NoMoreIncludes(prologue + body, closing);
    NoMoreIncludes(prologue + body + closing, epilogue);
  }

  predicate OfGuard(token: Token) {
    token.IfNotDefined? || token.Define? || token.EndIf?
  }

  lemma InPart(a: seq<Token>, b: seq<Token>, c: seq<Token>, d: seq<Token>, n: nat)
    requires n < |a + b + c + d|
    ensures var token := (a + b + c + d)[n];
      || (n < |a| && token == a[n])
      || (|a| <= n && (token in b || token in c))
      || (|a + b + c| <= n && token == d[n - |a + b + c|])
  {
  }

  lemma PrologueIsNeutral(includes: seq<string>, fileName: string, isHeader: bool, oldHeaderInclude: string)
    ensures forall token <- Prologue(includes, fileName, isHeader, oldHeaderInclude) :: Neutral(token)
    ensures forall token <- Epilogue(fileName, isHeader) :: Neutral(token) && !token.Include?
  {
    hide GuardName;
  }

  /** Whatever the file, no include stands behind a namespace or a declaration. */
  lemma PrologueIsFirst(
    ast: Ast, includes: seq<string>, decls: seq<Decl>, fileName: string, isHeader: bool, oldHeaderInclude: string)
    ensures var code := Printed(ast, includes, decls, fileName, isHeader, oldHeaderInclude);
      forall j, k :: 0 <= j < |code| && 0 <= k < |code| && code[j].Include? && !Neutral(code[k]) ==> j < k
  {
    var prologue, epilogue := Prologue(includes, fileName, isHeader, oldHeaderInclude), Epilogue(fileName, isHeader);
    PrologueIsNeutral(includes, fileName, isHeader, oldHeaderInclude);
    hide Body, Closing, Prologue, Epilogue;
    var body, closing := Body(ast, decls), Closing(LastPath(ast, decls), 0);
    BodyIsOfBody(ast, decls);
    ClosingIsOfBody(LastPath(ast, decls), 0);
    var code := prologue + body + closing + epilogue;
    forall n | 0 <= n < |code|
      ensures code[n].Include? ==> n < |prologue|
      ensures !Neutral(code[n]) ==> |prologue| <= n
    {
      InPart(prologue, body, closing, epilogue, n);
    }
  }

  lemma PrologueGuards(includes: seq<string>, fileName: string, isHeader: bool, oldHeaderInclude: string)
    ensures var tokens := Prologue(includes, fileName, isHeader, oldHeaderInclude);
      && (isHeader ==> [IfNotDefined(GuardName(fileName)), Define(GuardName(fileName))] <= tokens)
      && forall n :: 0 <= n < |tokens| && OfGuard(tokens[n]) ==> isHeader && n <= 1
  {
    hide GuardName;
  }

  lemma EpilogueGuards(fileName: string, isHeader: bool)
    ensures Epilogue(fileName, isHeader) == if isHeader then [Blank, EndIf(GuardName(fileName))] else []
  {
  }

  /** A header, and no other file, stands in its guard: two lines at its start and one at its end. */
  lemma GuardEnclosesHeader(
    ast: Ast, includes: seq<string>, decls: seq<Decl>, fileName: string, isHeader: bool, oldHeaderInclude: string)
    ensures var code, guard :=
        Printed(ast, includes, decls, fileName, isHeader, oldHeaderInclude), GuardName(fileName);
      && (isHeader ==> [IfNotDefined(guard), Define(guard)] <= code && code[|code| - 1] == EndIf(guard))
      && forall n :: 0 <= n < |code| && OfGuard(code[n]) ==> isHeader && n in {0, 1, |code| - 1}
  {
    hide Body, Closing, GuardName, Prologue, Epilogue;
    var prologue, epilogue := Prologue(includes, fileName, isHeader, oldHeaderInclude), Epilogue(fileName, isHeader);
    var body, closing := Body(ast, decls), Closing(LastPath(ast, decls), 0);
    PrologueGuards(includes, fileName, isHeader, oldHeaderInclude);
    EpilogueGuards(fileName, isHeader);
    BodyIsOfBody(ast, decls);
    ClosingIsOfBody(LastPath(ast, decls), 0);
    var code := prologue + body + closing + epilogue;
    forall n | 0 <= n < |code| && OfGuard(code[n])
      ensures isHeader && n in {0, 1, |code| - 1}
    {
      InPart(prologue, body, closing, epilogue, n);
    }
  }

  const LOWER := "abcdefghijklmnopqrstuvwxyz"
  const UPPER := "ABCDEFGHIJKLMNOPQRSTUVWXYZ"
  const DIGITS := "0123456789"

  /** The guard is the name of the file with capital letters and underscores for all but letters and digits. */
  lemma GuardNameExactly(fileName: string)
    ensures |GuardName(fileName)| == |fileName|
    ensures forall n, k :: 0 <= n < |fileName| && 0 <= k < 26 && fileName[n] in {LOWER[k], UPPER[k]} ==>
      GuardName(fileName)[n] == UPPER[k]
    ensures forall n :: 0 <= n < |fileName| && fileName[n] in DIGITS ==> GuardName(fileName)[n] == fileName[n]
    ensures forall n :: 0 <= n < |fileName| && fileName[n] !in LOWER + UPPER + DIGITS ==> GuardName(fileName)[n] == '_'
  {
    forall c: char, k | 0 <= k < 26 && c in {LOWER[k], UPPER[k]}
      ensures GuardChar(c) == UPPER[k]
    {
      LetterChar(k);
    }
    forall c: char | c in DIGITS
      ensures GuardChar(c) == c
    {
    }
    forall c: char | c !in LOWER + UPPER + DIGITS
      ensures GuardChar(c) == '_'
    {
      OtherChar(c);
    }
  }

  lemma LetterChar(k: nat)
    requires k < 26
    ensures GuardChar(LOWER[k]) == UPPER[k] == GuardChar(UPPER[k])
  {
    Alphabet(k);
  }

  lemma Alphabet(k: nat)
    requires k < 26
    ensures LOWER[k] as int == 'a' as int + k && UPPER[k] as int == 'A' as int + k
  {
  }

  lemma OtherChar(c: char)
    requires c !in LOWER && c !in UPPER && c !in DIGITS
    ensures GuardChar(c) == '_'
  {
    LowerCase(c);
    UpperCase(c);
    Digit(c);
  }

  lemma LowerCase(c: char)
    ensures 'a' <= c <= 'z' ==> c in LOWER
  {
    if 'a' <= c <= 'z' {
      Alphabet(c as int - 'a' as int);
    }
  }

  lemma UpperCase(c: char)
    ensures 'A' <= c <= 'Z' ==> c in UPPER
  {
    if 'A' <= c <= 'Z' {
      Alphabet(c as int - 'A' as int);
    }
  }

  lemma Digit(c: char)
    ensures '0' <= c <= '9' ==> c in DIGITS
  {
    if '0' <= c <= '9' {
      assert DIGITS[c as int - '0' as int] == c;
    }
  }

  /** How many empty lines stand among the tokens. */
  function EmptyLines(tokens: seq<Token>): nat {
    multiset(tokens)[Blank]
  }

  /** One empty line behind namespaces that are closed, and one in front of a declaration if none is opened. */
  lemma EmptyLinesBetween(current: seq<string>, next: seq<string>)
    ensures EmptyLines(Between(current, next)) ==
      (if current <= next then 0 else 1) + (if next <= current then 1 else 0)
  {
    var depth := CommonPrefix(current, next);
    NoBlankInside(current, next, depth);
    PrefixMeans(current, next);
  }

  lemma PrefixMeans(a: seq<string>, b: seq<string>)
    ensures a <= b <==> CommonPrefix(a, b) == |a|
    ensures b <= a <==> CommonPrefix(a, b) == |b|
  {
    assert a[..|a|] == a && b[..|b|] == b;
  }

  lemma {:induction false} NoBlankInside(current: seq<string>, next: seq<string>, depth: nat)
    ensures Blank !in Closing(current, depth) && Blank !in Opening(next, depth)
    decreases |current| + |next| - depth
  {
    if depth < |current| {
      NoBlankInside(current[..|current| - 1], next, depth);
    } else if depth < |next| {
      NoBlankInside(current, next, depth + 1);
    }
  }

  /** Declarations of the same namespace that follow each other are not separated by a namespace. */
  lemma SameNamespaceStaysOpen(path: seq<string>)
    ensures Between(path, path) == [Blank]
  {
    assert CommonPrefix(path, path) == |path|;
  }

  lemma {:induction false} ClosingLength(path: seq<string>, depth: nat)
    ensures |Closing(path, depth)| == if depth < |path| then |path| - depth else 0
  {
    if depth < |path| {
      ClosingLength(path[..|path| - 1], depth);
    }
  }

  /** No namespace is closed that the next declaration is in: what stays open is all the paths share. */
  lemma NothingIsReopened(current: seq<string>, next: seq<string>, shared: nat)
    requires shared <= |current| && shared <= |next| && current[..shared] == next[..shared]
    ensures |Closing(current, CommonPrefix(current, next))| <= |current| - shared
  {
    ClosingLength(current, CommonPrefix(current, next));
    assert forall n :: 0 <= n < shared ==> current[..shared][n] == current[n] == next[n];
  }

  /** Two declarations are printed in the namespaces that enclose them if no linkage specification hides one. */
  lemma PlacedWhereItWas(ast: Ast, decls: seq<Decl>, n: nat)
    requires n < |decls|
    ensures Placement(ast, decls)[n] == (decls[n], Names(ast.Contexts(decls[n]))) <==>
      !HiddenNamespace(ast.Contexts(decls[n]))
  {
    PathIsComplete(ast.Contexts(decls[n]));
  }
}
