/**
  Qualified names as strings, and shortening them inside a namespace.

  The program works on characters.  Here its results are stated for the components that the colons
  separate: the shortened name is the shortest one that still denotes the declaration.
  */
module QualifiedNames {

  predicate IsComponent(c: string) {
    c != "" && ':' !in c
  }

  predicate Components(cs: seq<string>) {
    forall n :: 0 <= n < |cs| ==> IsComponent(cs[n])
  }

  /** `joinNamespaces`. */
  function Join(cs: seq<string>): string {
    if cs == [] then ""
    else if |cs| == 1 then cs[0]
    else cs[0] + ("::" + Join(cs[1..]))
  }

  /** A name with its separator, to be put in front of another name. */
  function Qualifier(cs: seq<string>): string {
    if cs == [] then "" else cs[0] + ("::" + Qualifier(cs[1..]))
  }

  // ------------------------------------------------------------------ strings

  lemma SplitFirst(a: string, x: string, b: string, y: string)
    requires ':' !in a && ':' !in b && x != "" && x[0] == ':' && (y == "" || y[0] == ':')
    ensures a + x <= b + y <==> a == b && x <= y
  {
    if a + x <= b + y {
      assert forall n :: 0 <= n < |a| ==> (a + x)[n] in a;
      assert forall n :: 0 <= n < |b| ==> (b + y)[n] in b;
      assert (a + x)[|a|] == ':' == (b + y)[|a|];
      assert forall n :: 0 <= n < |a| ==> (b + y)[n] in a;
      assert |a| >= |b|;
      assert y != "" ==> (b + y)[|b|] == ':';
      assert a == (b + y)[..|a|] == b;
      assert x == (a + x)[|a|..];
      assert y == (b + y)[|b|..];
    }
  }

  // A name behind its first component.
  function Tail(d: seq<string>): (t: string)
    requires d != []
    ensures t == "" || t[0] == ':'
  {
    if |d| == 1 then "" else "::" + Join(d[1..])
  }

  lemma FirstComponents(q: seq<string>, d: seq<string>)
    requires q != [] && d != []
    ensures Qualifier(q) == q[0] + ("::" + Qualifier(q[1..])) && Join(d) == d[0] + Tail(d)
    ensures "::" + Qualifier(q[1..]) <= Tail(d) <==> |d| > 1 && Qualifier(q[1..]) <= Join(d[1..])
  {
    if |d| > 1 {
      assert ("::" + Qualifier(q[1..]))[2..] == Qualifier(q[1..]) && Tail(d)[2..] == Join(d[1..]);
    }
  }

  lemma PrefixByFirst(q: seq<string>, d: seq<string>)
    requires q != [] && d != []
    ensures q <= d <==> q[0] == d[0] && q[1..] <= d[1..]
  {
    assert q == [q[0]] + q[1..] && d == [d[0]] + d[1..];
  }

  /** A qualifier is in front of a name exactly if its components are, and some are left. */
  lemma {:induction false} QualifierIsPrefix(q: seq<string>, d: seq<string>)
    requires Components(q) && Components(d) && d != []
    ensures Qualifier(q) <= Join(d) <==> |q| < |d| && q <= d
    decreases |q|
  {
    hide Join, Tail;
    if q != [] {
      assert IsComponent(q[0]) && IsComponent(d[0]);
      hide Qualifier;
      FirstComponents(q, d);
      SplitFirst(q[0], "::" + Qualifier(q[1..]), d[0], Tail(d));
      PrefixByFirst(q, d);
      if |d| > 1 {
        QualifierIsPrefix(q[1..], d[1..]);
      }
    }
  }

  lemma {:induction false} JoinAfterQualifier(q: seq<string>, d: seq<string>)
    requires d != []
    ensures Join(q + d) == Qualifier(q) + Join(d)
  {
    if q == [] {
      assert q + d == d;
    } else {
      assert (q + d)[1..] == q[1..] + d;
      JoinAfterQualifier(q[1..], d);
      assert "::" + (Qualifier(q[1..]) + Join(d)) == ("::" + Qualifier(q[1..])) + Join(d);
      assert q[0] + (("::" + Qualifier(q[1..])) + Join(d)) == (q[0] + ("::" + Qualifier(q[1..]))) + Join(d);
    }
  }

  lemma {:induction false} JoinThenColons(q: seq<string>)
    requires q != []
    ensures Join(q) + "::" == Qualifier(q)
  {
    if |q| > 1 {
      JoinThenColons(q[1..]);
      assert (q[0] + ("::" + Join(q[1..]))) + "::" == q[0] + ("::" + (Join(q[1..]) + "::"));
    } else {
      assert Qualifier(q[1..]) == "" && "::" + "" == "::";
    }
  }

  /** The place of the last colon. */
  function FindLastColon(s: string): (n: int)
    ensures -1 <= n < |s| && (n >= 0 ==> s[n] == ':') && forall m :: n < m < |s| ==> s[m] != ':'
  {
    if s == "" then -1 else if s[|s| - 1] == ':' then |s| - 1 else FindLastColon(s[..|s| - 1])
  }

  lemma LastColonBefore(a: string, c: string)
    requires ':' !in c
    ensures FindLastColon(a + "::" + c) == |a| + 1
    ensures (a + "::" + c)[..|a|] == a
  {
    hide FindLastColon;
    var s := a + "::" + c;
    assert s[|a| + 1] == ':';
    assert forall n :: |a| + 2 <= n < |s| ==> s[n] in c;
  }

  lemma NoColon(q: seq<string>)
    requires Components(q) && |q| <= 1
    ensures FindLastColon(Join(q)) == -1
  {
    assert q != [] ==> IsComponent(q[0]);
  }

  /** Cutting at the last colon removes the last component. */
  lemma LastColon(q: seq<string>)
    requires Components(q) && |q| > 1
    ensures FindLastColon(Join(q)) > 0 && Join(q)[..FindLastColon(Join(q)) - 1] == Join(q[..|q| - 1])
  {
    hide Join, FindLastColon;
    var before, last := q[..|q| - 1], q[|q| - 1];
    assert q == before + [last] && IsComponent(last);
    JoinLast(before, last);
    LastColonBefore(Join(before), last);
  }

  lemma JoinLast(q: seq<string>, c: string)
    requires q != []
    ensures Join(q + [c]) == Join(q) + "::" + c
  {
    JoinAfterQualifier(q, [c]);
    JoinThenColons(q);
  }

  lemma {:induction false} ColonMeansComponents(d: seq<string>)
    requires Components(d) && d != []
    ensures ':' in Join(d) <==> |d| > 1
    ensures Join(d)[..1] != ":" && |Join(d)| > 0
  {
    assert IsComponent(d[0]);
    assert |d| > 1 ==> Join(d)[|d[0]|] == ':';
    assert Join(d)[0] == d[0][0] && d[0][0] in d[0];
  }

  function TrimColons(s: string): string {
    if s != "" && s[0] == ':' then TrimColons(s[1..]) else s
  }

  // ------------------------------------------------------------------ the shortest name

  /** How many components can be left out: the common ones, but not the last of the declaration. */
  function Shared(ns: seq<string>, d: seq<string>): (n: nat)
    ensures n <= |ns| && (d != [] ==> n < |d|)
  {
    if |d| <= 1 || ns == [] || ns[0] != d[0] then 0 else 1 + Shared(ns[1..], d[1..])
  }

  lemma {:induction false} SharedIsLongest(ns: seq<string>, d: seq<string>, n: nat)
    requires d != []
    ensures 0 < n <= |ns| && n < |d| && ns[..n] <= d ==> n <= Shared(ns, d)
    ensures n == Shared(ns, d) ==> ns[..n] <= d
  {
    if |d| > 1 && ns != [] && ns[0] == d[0] {
      if n > 0 && n <= |ns| && n < |d| {
        assert ns[..n] == [ns[0]] + ns[1..][..n - 1];
        assert d == [d[0]] + d[1..];
        SharedIsLongest(ns[1..], d[1..], n - 1);
        assert ns[..n] <= d <==> ns[1..][..n - 1] <= d[1..] by {
          if ns[..n] <= d {
            assert forall k :: 0 <= k < n - 1 ==> ns[1..][..n - 1][k] == ns[..n][k + 1] == d[k + 1] == d[1..][k];
          }
        }
      }
    } else if n > 0 && n <= |ns| && n < |d| {
      assert ns[..n][0] == ns[0];
    }
  }

  /** `name`, written inside some namespace around or equal to `ns`, is the whole name of the declaration. */
  ghost predicate Denotes(ns: seq<string>, d: seq<string>, name: string) {
    exists n :: 0 < n <= |ns| && Qualifier(ns[..n]) + name == Join(d)
  }

  /** The loop of `getShortestQualifiedNameInNamespace`. */
  method GetShortestQualifiedNameInNamespace(
    declName: string, nsName: string, ghost d: seq<string>, ghost ns: seq<string>)
    returns (r: string)
    requires Components(d) && d != [] && Components(ns)
    requires TrimColons(declName) == Join(d) && TrimColons(nsName) == Join(ns)
    ensures r == Join(d[Shared(ns, d)..])
  {
    var name, space := TrimColons(declName), TrimColons(nsName);
    ColonMeansComponents(d);
    if ':' !in name {
      return name;
    }
    ghost var n: nat := |ns|;
    assert ns[..n] == ns;
    hide Join, FindLastColon, TrimColons, Components, Shared;
    while true
      invariant n <= |ns| && space == Join(ns[..n]) && name == Join(d)
      invariant Shared(ns, d) <= n
      decreases |space|
    {
      if n == 0 {
        NoPrefix(ns, d);
      } else {
        PrefixStep(ns, d, n);
      }
      if space + "::" <= name {
        return name[|space| + 2..];
      }
      if n <= 1 {
        NoColon(ns[..n]);
      } else {
        LastColon(ns[..n]);
      }
      var pos := FindLastColon(space);
      if pos == -1 {
        assert Shared(ns, d) == 0;
        NoPrefix(ns, d);
        return name;
      }
      space := space[..pos - 1];
      assert ns[..n][..n - 1] == ns[..n - 1];
      n := n - 1;
    }
  }

  /** Whether the first `n` components of the namespace are in front of the name. */
  lemma PrefixStep(ns: seq<string>, d: seq<string>, n: nat)
    requires Components(d) && |d| > 1 && Components(ns) && 0 < n <= |ns| && Shared(ns, d) <= n
    ensures Join(ns[..n]) + "::" <= Join(d) <==> n == Shared(ns, d)
    ensures n == Shared(ns, d) ==> Join(d)[|Join(ns[..n])| + 2..] == Join(d[n..])
  {
    hide Join, Qualifier, Shared;
    var q := ns[..n];
    SharedIsLongest(ns, d, n);
    SharedIsLongest(ns, d, Shared(ns, d));
    JoinThenColons(q);
    QualifierIsPrefix(q, d);
    if n == Shared(ns, d) {
      assert d == q + d[n..];
      JoinAfterQualifier(q, d[n..]);
      assert (Qualifier(q) + Join(d[n..]))[|Qualifier(q)|..] == Join(d[n..]);
    }
  }

  lemma NoPrefix(ns: seq<string>, d: seq<string>)
    requires Components(d) && |d| > 1 && Shared(ns, d) == 0
    ensures !(Join(ns[..0]) + "::" <= Join(d)) && Join(d[Shared(ns, d)..]) == Join(d)
  {
    ColonMeansComponents(d);
    assert Join(ns[..0]) + "::" == "::" && "::"[0] == ':';
    assert Join(d)[..1] == [Join(d)[0]] && d[0..] == d;
  }

  /**
    Among all names that denote the declaration inside the namespace, the result is the shortest; and
    it is the full name if there is no such name.
    */
  lemma ShortestName(d: seq<string>, ns: seq<string>, name: string)
    requires Components(d) && d != [] && Components(ns)
    ensures var r := Join(d[Shared(ns, d)..]);
      && (Denotes(ns, d, name) ==> |r| <= |name|)
      && (if Shared(ns, d) == 0 then r == Join(d) && !Denotes(ns, d, name) else Denotes(ns, d, r))
  {
    var shared := Shared(ns, d);
    SharedIsLongest(ns, d, shared);
    assert d[0..] == d;
    assert d == ns[..shared] + d[shared..];
    JoinAfterQualifier(ns[..shared], d[shared..]);
    if Denotes(ns, d, name) {
      var n :| 0 < n <= |ns| && Qualifier(ns[..n]) + name == Join(d);
      QualifierIsPrefix(ns[..n], d);
      SharedIsLongest(ns, d, n);
      QualifierGrows(ns, n, shared);
    }
  }

  lemma {:induction false} QualifierGrows(ns: seq<string>, n: nat, m: nat)
    requires n <= m <= |ns|
    ensures |Qualifier(ns[..n])| <= |Qualifier(ns[..m])|
  {
    if n > 0 {
      assert ns[..n][1..] == ns[1..][..n - 1] && ns[..m][1..] == ns[1..][..m - 1];
      QualifierGrows(ns[1..], n - 1, m - 1);
    }
  }

  // ------------------------------------------------------------------ splitting

  /** `StringRef::split` at double colons, with empty pieces kept. */
  function Split(s: string): (r: seq<string>)
    ensures r != []
  {
    SplitFrom(s, 0)
  }

  /** Splits, with the first `n` characters already known to be part of the first piece. */
  function SplitFrom(s: string, n: nat): (r: seq<string>)
    requires n <= |s|
    ensures r != []
    decreases |s| - n
  {
    if n + 2 > |s| then [s]
    else if s[n] == ':' && s[n + 1] == ':' then [s[..n]] + SplitFrom(s[n + 2..], 0)
    else SplitFrom(s, n + 1)
  }

  lemma {:induction false} SplitFromComponent(c: string, rest: string, n: nat)
    requires IsComponent(c) && n <= |c|
    ensures SplitFrom(c, n) == [c]
    ensures SplitFrom(c + ("::" + rest), n) == [c] + Split(rest)
    decreases |c| - n
  {
    var s := c + ("::" + rest);
    if n < |c| {
      assert c[n] in c && s[n] == c[n];
      SplitFromComponent(c, rest, n + 1);
    } else {
      assert s[n] == ':' && s[n + 1] == ':' && s[..n] == c && s[n + 2..] == rest;
    }
  }

  /** Splitting undoes joining; the empty name still has one, empty, piece. */
  lemma {:induction false} SplitJoin(cs: seq<string>)
    requires Components(cs)
    ensures Split(Join(cs)) == if cs == [] then [""] else cs
  {
    if |cs| == 1 {
      SplitFromComponent(cs[0], "", 0);
      assert [cs[0]] == cs;
    } else if |cs| > 1 {
      SplitFromComponent(cs[0], Join(cs[1..]), 0);
      SplitJoin(cs[1..]);
      assert [cs[0]] + cs[1..] == cs;
    }
  }
}
