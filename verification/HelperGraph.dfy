/**
  The graph of references between helpers, and what can be reached in it.

  A depth-first search that marks nodes when it enters them finds exactly the nodes at the end of a
  path, whether or not the graph has cycles.
  */
module HelperGraph {

  import opened Declarations

  /** Every node with the nodes it refers to. */
  type Graph = map<Decl, seq<Decl>>

  predicate Edge(g: Graph, u: Decl, v: Decl) {
    u in g && v in g[u]
  }

  ghost predicate IsPath(g: Graph, path: seq<Decl>) {
    path != [] && path[0] in g && forall n :: 0 <= n < |path| - 1 ==> Edge(g, path[n], path[n + 1])
  }

  /** Some path, possibly of length zero, leads from `u` to `v`. */
  ghost predicate Reaches(g: Graph, u: Decl, v: Decl) {
    exists path: seq<Decl> :: IsPath(g, path) && path[0] == u && path[|path| - 1] == v
  }

  /** All edges lead to nodes. */
  ghost predicate Closed(g: Graph) {
    forall u <- g, v <- g[u] :: v in g
  }

  predicate AllCallees(g: Graph, u: Decl, within: set<Decl>) {
    u in g && forall v <- g[u] :: v in within
  }

  lemma ReachesItself(g: Graph, u: Decl)
    requires u in g
    ensures Reaches(g, u, u)
  {
    assert IsPath(g, [u]);
  }

  lemma ReachesFurther(g: Graph, u: Decl, v: Decl, w: Decl)
    requires Edge(g, u, v) && Reaches(g, v, w)
    ensures Reaches(g, u, w)
  {
    var path: seq<Decl> :| IsPath(g, path) && path[0] == v && path[|path| - 1] == w;
    var longer := [u] + path;
    assert IsPath(g, longer) && longer[|longer| - 1] == w;
  }

  /** A set that contains a node, and all callees of its members, contains all that the node reaches. */
  lemma {:induction false} ClosedSetContainsPath(g: Graph, within: set<Decl>, path: seq<Decl>)
    requires IsPath(g, path) && path[0] in within && forall u <- within :: AllCallees(g, u, within)
    ensures path[|path| - 1] in within
  {
    if |path| > 1 {
      assert Edge(g, path[0], path[1]) && AllCallees(g, path[0], within);
      assert forall n :: 0 <= n < |path| - 2 ==> Edge(g, path[1..][n], path[1..][n + 1]) by {
        forall n | 0 <= n < |path| - 2
          ensures Edge(g, path[1..][n], path[1..][n + 1])
        {
          assert Edge(g, path[n + 1], path[n + 2]);
        }
      }
      assert path[1] in within && AllCallees(g, path[1], within);
      ClosedSetContainsPath(g, within, path[1..]);
    }
  }

  class HelperDeclRefGraph {
    const ast: Ast
    var callees: Graph

    /** Nodes stand for first redeclarations. */
    ghost predicate Valid()
      reads this
    {
      ast.WellFormed() && Closed(callees) && forall d <- callees :: ast.Canonical(d) == d
    }

    constructor (ast: Ast)
      requires ast.WellFormed()
      ensures Valid() && this.ast == ast && callees == map[]
    {
      this.ast := ast;
      callees := map[];
    }

    method GetOrInsertNode(d: Decl) returns (node: Decl)
      requires Valid()
      modifies this
      ensures Valid() && node == ast.Canonical(d)
      ensures callees == if node in old(callees) then old(callees) else old(callees)[node := []]
    {
      node := ast.Canonical(d);
      if node !in callees {
        callees := callees[node := []];
      }
    }

    /** Adds both nodes and the edge; a reference of a declaration to itself is ignored. */
    method AddEdge(caller: Decl, callee: Decl)
      requires Valid()
      modifies this
      ensures Valid()
      ensures caller == callee ==> callees == old(callees)
      ensures caller != callee ==>
        && callees.Keys == old(callees).Keys + {ast.Canonical(caller), ast.Canonical(callee)}
        && forall u: Decl, v: Decl ::
          Edge(callees, u, v) <==>
          Edge(old(callees), u, v) || (u == ast.Canonical(caller) && v == ast.Canonical(callee))
    {
      if caller == callee {
        return;
      }
      var callerNode := GetOrInsertNode(caller);
      var calleeNode := GetOrInsertNode(callee);
      callees := callees[callerNode := callees[callerNode] + [calleeNode]];
    }

    /** Visits everything that `node` reaches and that is not marked yet. */
    method VisitNode(node: Decl, connected: set<Decl>) returns (marked: set<Decl>)
      requires Valid() && node in callees && connected <= callees.Keys
      ensures connected <= marked <= callees.Keys && node in marked
      ensures forall u <- marked - connected :: AllCallees(callees, u, marked) && Reaches(callees, node, u)
      decreases callees.Keys - connected
    {
      if node in connected {
        return connected;
      }
      marked := connected + {node};
      ReachesItself(callees, node);
      for n := 0 to |callees[node]|
        invariant connected + {node} <= marked <= callees.Keys
        invariant forall u <- marked - connected - {node} :: AllCallees(callees, u, marked)
        invariant forall u <- marked - connected :: Reaches(callees, node, u)
        invariant forall m :: 0 <= m < n ==> callees[node][m] in marked
      {
        var next := callees[node][n];
        ghost var before := marked;
        marked := VisitNode(next, marked);
        forall u | u in marked - before
          ensures Reaches(callees, node, u)
        {
          ReachesFurther(callees, node, next, u);
        }
        forall u | u in marked - connected - {node}
          ensures AllCallees(callees, u, marked)
        {
          assert u in before ==> AllCallees(callees, u, before);
        }
      }
    }

    /** The nodes that can be reached from a declaration's node: none, if it has no node. */
    method GetReachableNodes(root: Decl) returns (nodes: set<Decl>)
      requires Valid()
      ensures forall v: Decl :: v in nodes <==> Reaches(callees, ast.Canonical(root), v)
    {
      var rootNode := ast.Canonical(root);
      if rootNode !in callees {
        return {};
      }
      nodes := VisitNode(rootNode, {});
      forall v: Decl | Reaches(callees, rootNode, v)
        ensures v in nodes
      {
        var path: seq<Decl> :| IsPath(callees, path) && path[0] == rootNode && path[|path| - 1] == v;
        ClosedSetContainsPath(callees, nodes, path);
      }
    }

    /** `getUsedDecls`: what the outermost class or function of any of the declarations reaches. */
    method GetUsedDecls(decls: seq<Decl>) returns (used: set<Decl>)
      requires Valid()
      ensures forall v: Decl :: v in used <==> Used(callees, ast, decls, v)
    {
      used := {};
      for n := 0 to |decls|
        invariant forall v: Decl :: v in used <==> Used(callees, ast, decls[..n], v)
      {
        var outmost := GetOutmostClassOrFunDecl(ast, decls[n]);
        var nodes := GetReachableNodes(outmost);
        UsedOneMore(callees, ast, decls, n);
        used := used + nodes;
      }
      assert decls[..|decls|] == decls;
    }
  }

  ghost predicate Used(g: Graph, ast: Ast, decls: seq<Decl>, v: Decl) {
    exists n :: 0 <= n < |decls| && ReachesFrom(g, ast, decls[n], v)
  }

  ghost predicate ReachesFrom(g: Graph, ast: Ast, d: Decl, v: Decl) {
    Reaches(g, ast.Canonical(ast.Outmost(d)), v)
  }

  lemma UsedOneMore(g: Graph, ast: Ast, decls: seq<Decl>, n: nat)
    requires n < |decls|
    ensures forall v: Decl ::
      Used(g, ast, decls[..n + 1], v) <==> Used(g, ast, decls[..n], v) || ReachesFrom(g, ast, decls[n], v)
  {
    forall v: Decl
      ensures Used(g, ast, decls[..n + 1], v) <==> Used(g, ast, decls[..n], v) || ReachesFrom(g, ast, decls[n], v)
    {
      assert forall m :: 0 <= m < n ==> decls[..n][m] == decls[..n + 1][m];
      assert decls[..n + 1][n] == decls[n];
      if Used(g, ast, decls[..n], v) {
        var m :| 0 <= m < n && ReachesFrom(g, ast, decls[..n][m], v);
        assert ReachesFrom(g, ast, decls[..n + 1][m], v);
      }
    }
  }

  lemma {:induction false} PathExtended(g: Graph, u: Decl, v: Decl, w: Decl)
    requires Reaches(g, u, v) && Edge(g, v, w)
    ensures Reaches(g, u, w)
  {
    var path: seq<Decl> :| IsPath(g, path) && path[0] == u && path[|path| - 1] == v;
    var longer := path + [w];
    forall n | 0 <= n < |longer| - 1
      ensures Edge(g, longer[n], longer[n + 1])
    {
      assert n < |path| - 1 ==> Edge(g, path[n], path[n + 1]);
    }
    assert IsPath(g, longer) && longer[|longer| - 1] == w;
  }

  /** What is used is closed under references. */
  lemma UsedIsClosed(g: Graph, ast: Ast, decls: seq<Decl>, v: Decl, w: Decl)
    requires Used(g, ast, decls, v) && Edge(g, v, w)
    ensures Used(g, ast, decls, w)
  {
    var n :| 0 <= n < |decls| && ReachesFrom(g, ast, decls[n], v);
    PathExtended(g, ast.Canonical(ast.Outmost(decls[n])), v, w);
    assert ReachesFrom(g, ast, decls[n], w);
  }

  lemma {:induction false} PathStaysInside(g: Graph, path: seq<Decl>)
    requires Closed(g) && IsPath(g, path)
    ensures path[|path| - 1] in g
  {
    if |path| > 1 {
      assert Edge(g, path[|path| - 2], path[|path| - 1]);
    }
  }
}
