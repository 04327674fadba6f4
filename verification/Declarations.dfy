/** Declarations, as far as moving them between files is concerned. */
module Declarations {

  type Decl = nat

  datatype Context =
    | Namespace(name: string, nameonly isInline: bool := false)  // no name: an anonymous namespace
    | Record(decl: Decl)
    | Function(decl: Decl)
    | LinkageSpec
    | TranslationUnit
    | OtherContext

  /** The names of all namespaces in a chain of contexts, outermost first. */
  function Names(chain: seq<Context>): seq<string> {
    if chain == [] then []
    else if chain[0].Namespace? then Names(chain[1..]) + [chain[0].name]
    else Names(chain[1..])
  }

  /** The names of the outer contexts come first; a context that is no namespace has none. */
  lemma {:induction false} NamesExactly(inner: seq<Context>, outer: seq<Context>, c: Context)
    ensures Names(inner + outer) == Names(outer) + Names(inner)
    ensures Names([c]) == if c.Namespace? then [c.name] else []
  {
    assert Names([]) == [];
    if inner == [] {
      assert inner + outer == outer && Names(outer) + [] == Names(outer);
    } else {
      assert (inner + outer)[1..] == inner[1..] + outer;
      NamesExactly(inner[1..], outer, c);
    }
  }

  /** The length of the longest common prefix of two paths. */
  function CommonPrefix(a: seq<string>, b: seq<string>): (n: nat)
    ensures n <= |a| && n <= |b| && a[..n] == b[..n]
    ensures n < |a| && n < |b| ==> a[n] != b[n]
  {
    if a == [] || b == [] || a[0] != b[0] then 0 else
      var n := 1 + CommonPrefix(a[1..], b[1..]);
      assert a[..n] == [a[0]] + a[1..][..n - 1] && b[..n] == [b[0]] + b[1..][..n - 1];
      n
  }

  /** The contexts around each declaration, from the inside, and the first of its redeclarations. */
  datatype Ast = Ast(contexts: map<Decl, seq<Context>>, canonical: map<Decl, Decl>)
  {
    function Contexts(d: Decl): seq<Context> {
      if d in contexts then contexts[d] else []
    }

    function Canonical(d: Decl): Decl {
      if d in canonical then canonical[d] else d
    }

    /** The first redeclaration is its own first redeclaration. */
    ghost predicate WellFormed() {
      forall d: Decl :: Canonical(Canonical(d)) == Canonical(d)
    }

    /** The outermost class or function around a declaration, or itself. */
    function Outmost(d: Decl): Decl {
      OutmostIn(Contexts(d), d)
    }
  }

  function OutmostIn(contexts: seq<Context>, d: Decl): Decl {
    if contexts == [] then
      d
    else
      var last := contexts[|contexts| - 1];
      if last.Record? || last.Function? then last.decl else OutmostIn(contexts[..|contexts| - 1], d)
  }

  lemma {:induction false} OutmostInMore(contexts: seq<Context>, more: seq<Context>, d: Decl)
    ensures OutmostIn(contexts + more, d) == OutmostIn(more, OutmostIn(contexts, d))
    decreases |more|
  {
    if more == [] {
      assert contexts + more == contexts;
    } else {
      assert (contexts + more)[..|contexts + more| - 1] == contexts + more[..|more| - 1];
      OutmostInMore(contexts, more[..|more| - 1], d);
    }
  }

  /** `getOutmostClassOrFunDecl`. */
  method GetOutmostClassOrFunDecl(ast: Ast, d: Decl) returns (result: Decl)
    ensures result == ast.Outmost(d)
  {
    var contexts := ast.Contexts(d);
    result := d;
    for n := 0 to |contexts|
      invariant result == OutmostIn(contexts[..n], d)
    {
      if contexts[n].Record? || contexts[n].Function? {
        result := contexts[n].decl;
      }
      assert contexts[..n + 1][..n] == contexts[..n];
    }
    assert contexts[..|contexts|] == contexts;
  }

  /** No class or function encloses the result, or it is the declaration itself. */
  lemma {:induction false} OutmostIsOutermost(contexts: seq<Context>, d: Decl)
    ensures
      || (OutmostIn(contexts, d) == d && forall c <- contexts :: !c.Record? && !c.Function?)
      || (exists n ::
            && 0 <= n < |contexts|
            && (contexts[n] == Record(OutmostIn(contexts, d)) || contexts[n] == Function(OutmostIn(contexts, d)))
            && forall m :: n < m < |contexts| ==> !contexts[m].Record? && !contexts[m].Function?)
  {
    if contexts != [] {
      var k := |contexts| - 1;
      if !contexts[k].Record? && !contexts[k].Function? {
        OutmostIsOutermost(contexts[..k], d);
        assert forall c <- contexts :: c == contexts[k] || c in contexts[..k];
      }
    }
  }
}
