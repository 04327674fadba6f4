/**
  Which helper declarations go with the moved ones, and which stay.

  A helper of the old file is copied if a removed declaration uses it, directly or not, and it is
  removed if no declaration left in the old header does.
  */
module DeclMover {

  import opened Declarations
  import opened HelperGraph

  /** The helper's outermost class or function is among the used ones. */
  predicate Needed(ast: Ast, used: set<Decl>, d: Decl) {
    ast.Outmost(d) in used
  }

  function Unneeded(ast: Ast, used: set<Decl>, helpers: seq<Decl>): seq<Decl> {
    if helpers == [] then
      []
    else
      var n := |helpers| - 1;
      Unneeded(ast, used, helpers[..n]) + (if Needed(ast, used, helpers[n]) then [] else [helpers[n]])
  }

  /** The declarations of the old source file, without the helpers that are not needed. */
  function Copied(ast: Ast, used: set<Decl>, helpers: seq<Decl>, decls: seq<Decl>): seq<Decl> {
    if decls == [] then
      []
    else
      var n := |decls| - 1;
      Copied(ast, used, helpers, decls[..n]) +
      (if decls[n] in helpers && !Needed(ast, used, decls[n]) then [] else [decls[n]])
  }

  function InHeader(header: set<Decl>, decls: seq<Decl>, inside: bool): seq<Decl> {
    if decls == [] then
      []
    else
      var n := |decls| - 1;
      InHeader(header, decls[..n], inside) + (if (decls[n] in header) == inside then [decls[n]] else [])
  }

  class ClangMoveTool {
    const ast: Ast
    const graph: HelperDeclRefGraph
    /** The moved declarations, those among them that stand in the old header, and the helpers. */
    const movedDecls: seq<Decl>
    const header: set<Decl>
    const helperDeclarations: seq<Decl>
    const unremovedDeclsInOldHeader: seq<Decl>
    const hasOldHeader: bool
    var removedDecls: seq<Decl>

    constructor (
      graph: HelperDeclRefGraph, movedDecls: seq<Decl>, header: set<Decl>, helpers: seq<Decl>,
      unremoved: seq<Decl>, hasOldHeader: bool, removed: seq<Decl>)
      ensures this.graph == graph && ast == graph.ast && this.movedDecls == movedDecls && this.header == header
      ensures helperDeclarations == helpers && unremovedDeclsInOldHeader == unremoved
      ensures this.hasOldHeader == hasOldHeader && removedDecls == removed
    {
      this.graph, this.ast, this.movedDecls, this.header := graph, graph.ast, movedDecls, header;
      helperDeclarations, unremovedDeclsInOldHeader := helpers, unremoved;
      this.hasOldHeader, removedDecls := hasOldHeader, removed;
    }

    /** Splits the moved declarations, and leaves out the helpers that no removed declaration uses. */
    method MoveDeclsToNewFiles() returns (newHeaderDecls: seq<Decl>, actualNewCCDecls: seq<Decl>, used: set<Decl>)
      requires graph.Valid() && ast == graph.ast
      ensures forall v: Decl :: v in used <==> Used(graph.callees, ast, removedDecls, v)
      ensures newHeaderDecls == InHeader(header, movedDecls, true)
      ensures actualNewCCDecls == Copied(ast, used, helperDeclarations, InHeader(header, movedDecls, false))
    {
      newHeaderDecls := [];
      var newCCDecls := [];
      for n := 0 to |movedDecls|
        invariant newHeaderDecls == InHeader(header, movedDecls[..n], true)
        invariant newCCDecls == InHeader(header, movedDecls[..n], false)
      {
        if movedDecls[n] in header {
          newHeaderDecls := newHeaderDecls + [movedDecls[n]];
        } else {
          newCCDecls := newCCDecls + [movedDecls[n]];
        }
        assert movedDecls[..n + 1][..n] == movedDecls[..n];
      }
      assert movedDecls[..|movedDecls|] == movedDecls;
      used := graph.GetUsedDecls(removedDecls);
      actualNewCCDecls := [];
      for n := 0 to |newCCDecls|
        invariant actualNewCCDecls == Copied(ast, used, helperDeclarations, newCCDecls[..n])
      {
        var d := newCCDecls[n];
        assert newCCDecls[..n + 1][..n] == newCCDecls[..n];
        var outmost := GetOutmostClassOrFunDecl(ast, d);
        if d in helperDeclarations && outmost !in used {
          continue;
        }
        actualNewCCDecls := actualNewCCDecls + [d];
      }
      assert newCCDecls[..|newCCDecls|] == newCCDecls;
    }

    /** Without an old header, nothing says which helpers are still used, and all of them stay. */
    method RemoveDeclsInOldFiles() returns (used: set<Decl>)
      requires graph.Valid() && ast == graph.ast
      modifies this
      ensures graph.callees == old(graph.callees)
      ensures old(removedDecls) != [] && hasOldHeader ==>
        forall v: Decl :: v in used <==> Used(graph.callees, ast, unremovedDeclsInOldHeader, v)
      ensures removedDecls == old(removedDecls) +
        (if old(removedDecls) == [] || !hasOldHeader then [] else Unneeded(ast, used, helperDeclarations))
    {
      used := {};
      if removedDecls == [] {
        return;
      }
      if hasOldHeader {
        used := graph.GetUsedDecls(unremovedDeclsInOldHeader);
        for n := 0 to |helperDeclarations|
          invariant removedDecls == old(removedDecls) + Unneeded(ast, used, helperDeclarations[..n])
          invariant graph.callees == old(graph.callees)
        {
          var d := helperDeclarations[n];
          var outmost := GetOutmostClassOrFunDecl(ast, d);
          if outmost !in used {
            removedDecls := removedDecls + [d];
          }
          assert helperDeclarations[..n + 1][..n] == helperDeclarations[..n];
        }
        assert helperDeclarations[..|helperDeclarations|] == helperDeclarations;
      }
    }
  }

  // ------------------------------------------------------------------ what the choice means

  /** The places of `r` in `decls`: ascending, and exactly those that are chosen. */
  ghost predicate Picks(decls: seq<Decl>, chosen: Decl -> bool, places: seq<nat>, r: seq<Decl>) {
    && |places| == |r|
    && (forall k :: 0 <= k < |places| ==> places[k] < |decls| && decls[places[k]] == r[k])
    && (forall j, k :: 0 <= j < k < |places| ==> places[j] < places[k])
    && (forall n :: 0 <= n < |decls| ==> (chosen(decls[n]) <==> n in places))
  }

  lemma PicksOneMore(decls: seq<Decl>, d: Decl, chosen: Decl -> bool, places: seq<nat>, r: seq<Decl>)
    requires Picks(decls, chosen, places, r)
    ensures chosen(d) ==> Picks(decls + [d], chosen, places + [|decls|], r + [d])
    ensures !chosen(d) ==> Picks(decls + [d], chosen, places, r)
  {
    var more, after := decls + [d], places + [|decls|];
    assert forall n :: 0 <= n < |decls| ==> more[n] == decls[n] && (n in after <==> n in places);
    assert more[|decls|] == d && |decls| in after && |decls| !in places;
  }

  /** The header takes the moved declarations of the old header, the source file the others, each in order. */
  lemma {:induction false} SidesExactly(header: set<Decl>, decls: seq<Decl>, inside: bool) returns (places: seq<nat>)
    ensures Picks(decls, d => (d in header) == inside, places, InHeader(header, decls, inside))
  {
    places := [];
    if decls != [] {
      var n := |decls| - 1;
      places := SidesExactly(header, decls[..n], inside);
      PicksOneMore(decls[..n], decls[n], d => (d in header) == inside, places, InHeader(header, decls[..n], inside));
      assert decls == decls[..n] + [decls[n]];
      places := if (decls[n] in header) == inside then places + [n] else places;
    }
  }

  /** All but the helpers whose outermost class or function is not used stay, in order. */
  lemma {:induction false} CopiedInOrder(ast: Ast, used: set<Decl>, helpers: seq<Decl>, decls: seq<Decl>)
    returns (places: seq<nat>)
    ensures Picks(decls, (d: Decl) => d in helpers ==> ast.Outmost(d) in used,
                  places, Copied(ast, used, helpers, decls))
  {
    places := [];
    if decls != [] {
      var n := |decls| - 1;
      var chosen := (d: Decl) => d in helpers ==> ast.Outmost(d) in used;
      places := CopiedInOrder(ast, used, helpers, decls[..n]);
      PicksOneMore(decls[..n], decls[n], chosen, places, Copied(ast, used, helpers, decls[..n]));
      assert decls == decls[..n] + [decls[n]];
      places := if chosen(decls[n]) then places + [n] else places;
    }
  }

  /** The helpers that are removed are those whose outermost class or function is not used, in order. */
  lemma {:induction false} UnneededInOrder(ast: Ast, used: set<Decl>, helpers: seq<Decl>) returns (places: seq<nat>)
    ensures Picks(helpers, (d: Decl) => ast.Outmost(d) !in used, places, Unneeded(ast, used, helpers))
  {
    places := [];
    if helpers != [] {
      var n := |helpers| - 1;
      var chosen := (d: Decl) => ast.Outmost(d) !in used;
      places := UnneededInOrder(ast, used, helpers[..n]);
      PicksOneMore(helpers[..n], helpers[n], chosen, places, Unneeded(ast, used, helpers[..n]));
      assert helpers == helpers[..n] + [helpers[n]];
      places := if chosen(helpers[n]) then places + [n] else places;
    }
  }

  lemma {:induction false} UnneededHelpers(ast: Ast, used: set<Decl>, helpers: seq<Decl>, d: Decl)
    ensures d in Unneeded(ast, used, helpers) <==> d in helpers && !Needed(ast, used, d)
  {
    if helpers != [] {
      var n := |helpers| - 1;
      UnneededHelpers(ast, used, helpers[..n], d);
      assert helpers == helpers[..n] + [helpers[n]];
    }
  }

  lemma {:induction false} CopiedDecls(ast: Ast, used: set<Decl>, helpers: seq<Decl>, decls: seq<Decl>, d: Decl)
    ensures d in Copied(ast, used, helpers, decls) <==> d in decls && (d in helpers ==> Needed(ast, used, d))
  {
    if decls != [] {
      var n := |decls| - 1;
      CopiedDecls(ast, used, helpers, decls[..n], d);
      assert decls == decls[..n] + [decls[n]];
    }
  }

  /** The declaration is a root, or some root's outermost class or function reaches it. */
  ghost predicate UsedBy(g: Graph, ast: Ast, roots: seq<Decl>, d: Decl) {
    Used(g, ast, roots, ast.Canonical(ast.Outmost(d)))
  }

  /** Whether the outermost class or function around a helper is its own first redeclaration. */
  predicate FirstDeclared(ast: Ast, d: Decl) {
    ast.Canonical(ast.Outmost(d)) == ast.Outmost(d)
  }

  /**
    A helper counts as needed exactly if a root reaches it and it was not declared before: the graph
    knows only the first redeclaration, and the test asks for the one at hand.
    */
  lemma NeededExactly(g: Graph, ast: Ast, roots: seq<Decl>, used: set<Decl>, d: Decl)
    requires Closed(g) && ast.WellFormed() && forall v <- g :: ast.Canonical(v) == v
    requires forall v: Decl :: v in used <==> Used(g, ast, roots, v)
    ensures Needed(ast, used, d) <==> UsedBy(g, ast, roots, d) && FirstDeclared(ast, d)
  {
    if Needed(ast, used, d) {
      var outmost := ast.Outmost(d);
      var n :| 0 <= n < |roots| && ReachesFrom(g, ast, roots[n], outmost);
      var path: seq<Decl> :| IsPath(g, path) && path[|path| - 1] == outmost;
      PathStaysInside(g, path);
    }
  }

  /** What a needed helper refers to is needed exactly if it was not declared before. */
  lemma NeededIsClosed(g: Graph, ast: Ast, roots: seq<Decl>, used: set<Decl>, d: Decl, e: Decl)
    requires Closed(g) && ast.WellFormed() && forall v <- g :: ast.Canonical(v) == v
    requires forall v: Decl :: v in used <==> Used(g, ast, roots, v)
    requires Needed(ast, used, d) && Edge(g, ast.Outmost(d), ast.Canonical(ast.Outmost(e)))
    ensures Needed(ast, used, e) <==> FirstDeclared(ast, e)
  {
    UsedIsClosed(g, ast, roots, ast.Outmost(d), ast.Canonical(ast.Outmost(e)));
    NeededExactly(g, ast, roots, used, e);
  }

  /** The helpers in the new file are exactly those that a removed declaration reaches, if not declared before. */
  lemma CopiedExactly(
    g: Graph, ast: Ast, removed: seq<Decl>, used: set<Decl>, helpers: seq<Decl>, decls: seq<Decl>, d: Decl)
    requires Closed(g) && ast.WellFormed() && forall v <- g :: ast.Canonical(v) == v
    requires forall v: Decl :: v in used <==> Used(g, ast, removed, v)
    requires d in decls && d in helpers
    ensures d in Copied(ast, used, helpers, decls) <==> UsedBy(g, ast, removed, d) && FirstDeclared(ast, d)
  {
    CopiedDecls(ast, used, helpers, decls, d);
    NeededExactly(g, ast, removed, used, d);
  }

  /** Those in the old file are exactly those that a declaration left there reaches, if not declared before. */
  lemma KeptExactly(g: Graph, ast: Ast, unremoved: seq<Decl>, used: set<Decl>, helpers: seq<Decl>, d: Decl)
    requires Closed(g) && ast.WellFormed() && forall v <- g :: ast.Canonical(v) == v
    requires forall v: Decl :: v in used <==> Used(g, ast, unremoved, v)
    requires d in helpers
    ensures d !in Unneeded(ast, used, helpers) <==> UsedBy(g, ast, unremoved, d) && FirstDeclared(ast, d)
  {
    UnneededHelpers(ast, used, helpers, d);
    NeededExactly(g, ast, unremoved, used, d);
  }

  /**
    A helper that was declared before its definition is lost: although everybody uses it, its
    definition is neither copied nor kept.
    */
  lemma RedeclaredHelperIsLost(
    g: Graph, ast: Ast, removed: seq<Decl>, unremoved: seq<Decl>, used: set<Decl>, stillUsed: set<Decl>,
    helpers: seq<Decl>, decls: seq<Decl>, d: Decl)
    requires Closed(g) && ast.WellFormed() && forall v <- g :: ast.Canonical(v) == v
    requires forall v: Decl :: v in used <==> Used(g, ast, removed, v)
    requires forall v: Decl :: v in stillUsed <==> Used(g, ast, unremoved, v)
    requires d in helpers && !FirstDeclared(ast, d)
    ensures d !in Copied(ast, used, helpers, decls) && d in Unneeded(ast, stillUsed, helpers)
  {
    CopiedDecls(ast, used, helpers, decls, d);
    NeededExactly(g, ast, removed, used, d);
    UnneededHelpers(ast, stillUsed, helpers, d);
    NeededExactly(g, ast, unremoved, stillUsed, d);
  }

  /** Such a helper exists: declaration 1 uses helper 3, which was first declared as 2. */
  lemma RedeclaredHelperExample()
    ensures var ast, g := Ast(map[], map[3 := 2]), map[1 := [2], 2 := []];
      && ast.WellFormed() && Closed(g) && (forall v <- g :: ast.Canonical(v) == v)
      && UsedBy(g, ast, [1], 3) && !FirstDeclared(ast, 3)
  {
    var ast: Ast, g: Graph := Ast(map[], map[3 := 2]), map[1 := [2], 2 := []];
    assert ast.Outmost(1) == 1 && ast.Outmost(3) == 3;
    assert Edge(g, 1, 2);
    assert IsPath(g, [1, 2]) && [1, 2][0] == 1 && [1, 2][1] == 2;
    assert Reaches(g, 1, 2);
    assert ReachesFrom(g, ast, [1][0], 2);
  }
}
