/**
  Moving the code of a namespace into another one.

  The code is cut out of the old namespace and inserted behind the outermost namespace that the new
  name does not share, wrapped in the namespaces that are missing there.  A file is a sequence of
  characters, each with what the compiler sees end and begin at it.
  */
module NamespaceChange {

  import opened Wrappers
  import opened Declarations
  import opened QualifiedNames

  // ------------------------------------------------------------------ what the two names do not share

  /** The constructor's loop: what is left of both names behind their common components. */
  method DiffNamespaces(oldName: string, newName: string, ghost old_: seq<string>, ghost new_: seq<string>)
    returns (diffOld: string, diffNew: string)
    requires Components(old_) && Components(new_)
    requires TrimColons(oldName) == Join(old_) && TrimColons(newName) == Join(new_)
    ensures diffOld == Join(old_[CommonPrefix(old_, new_)..]) && diffNew == Join(new_[CommonPrefix(old_, new_)..])
  {
    var a, b := Split(TrimColons(oldName)), Split(TrimColons(newName));
    SplitJoin(old_);
    SplitJoin(new_);
    ghost var a0, b0 := a, b;
    ghost var n: nat := 0;
    while a != [] && b != [] && a[0] == b[0]
      invariant n <= |a0| && n <= |b0| && a == a0[n..] && b == b0[n..]
      invariant CommonPrefix(a0, b0) == n + CommonPrefix(a, b)
    {
      a, b := a[1..], b[1..];
      n := n + 1;
    }
    assert CommonPrefix(a, b) == 0;
    WithEmptyPieces(old_, new_);
    diffOld, diffNew := Join(a), Join(b);
  }

  /** The empty piece of a global name makes no difference. */
  lemma WithEmptyPieces(a: seq<string>, b: seq<string>)
    requires Components(a) && Components(b)
    ensures var a', b' := if a == [] then [""] else a, if b == [] then [""] else b;
      && Join(a'[CommonPrefix(a', b')..]) == Join(a[CommonPrefix(a, b)..])
      && Join(b'[CommonPrefix(a', b')..]) == Join(b[CommonPrefix(a, b)..])
  {
    assert a != [] ==> IsComponent(a[0]);
    assert b != [] ==> IsComponent(b[0]);
    if a == [] || b == [] {
      assert CommonPrefix(a, b) == 0;
    }
  }

  // ------------------------------------------------------------------ the namespaces that are matched

  predicate EndsWith(names: seq<string>, last: seq<string>) {
    |last| <= |names| && names[|names| - |last|..] == last
  }

  /** What the matcher calls a namespace. */
  function MatchName(c: Context): (name: string)
    requires c.Namespace?
    ensures c.name != "" ==> name == c.name
  {
    if c.name == "" then "(anonymous namespace)" else c.name
  }

  /** A namespace that need not be written in the names of what is in it. */
  predicate CanSkip(c: Context)
    requires c.Namespace?
  {
    c.name == "" || c.isInline
  }

  predicate EndsIn(pattern: seq<string>, c: Context)
    requires c.Namespace?
  {
    pattern != [] && pattern[|pattern| - 1] == MatchName(c)
  }

  /** From the inside, every namespace gives the last component that is left, or is skipped. */
  predicate Reads(chain: seq<Context>, pattern: seq<string>) {
    if chain == [] || !chain[0].Namespace? then pattern == []
    else if EndsIn(pattern, chain[0]) then Reads(chain[1..], pattern[..|pattern| - 1])
    else CanSkip(chain[0]) && Reads(chain[1..], pattern)
  }

  /** The inner namespace itself must give the last component. */
  predicate Matches(chain: seq<Context>, pattern: seq<string>) {
    chain != [] && chain[0].Namespace? && EndsIn(pattern, chain[0]) && Reads(chain, pattern)
  }

  /** `matchesNodeFullFast`, for a namespace and a fully qualified pattern. */
  method HasName(chain: seq<Context>, name: seq<string>) returns (r: bool)
    requires chain != [] && chain[0].Namespace?
    requires forall c <- chain :: !c.Record? && !c.Function?
    ensures r == Matches(chain, name)
  {
    var pattern := name;
    if !EndsIn(pattern, chain[0]) {
      return false;
    }
    pattern := pattern[..|pattern| - 1];
    var n := 1;
    while n < |chain| && chain[n].Namespace?
      invariant 1 <= n <= |chain| && Reads(chain, name) == Reads(chain[n..], pattern)
    {
      assert chain[n..][1..] == chain[n + 1..];
      if EndsIn(pattern, chain[n]) {
        pattern := pattern[..|pattern| - 1];
      } else if !CanSkip(chain[n]) {
        return false;
      }
      n := n + 1;
    }
    return pattern == [];
  }

  /** The contexts outside of the namespace that gives the last component but `j - 1`. */
  function Outside(chain: seq<Context>, pattern: seq<string>, j: nat): (r: seq<Context>)
    requires Reads(chain, pattern) && j <= |pattern|
    ensures Reads(r, pattern[..|pattern| - j])
  {
    if j == 0 then
      assert pattern[..|pattern|] == pattern;
      chain
    else if EndsIn(pattern, chain[0]) then
      var left := pattern[..|pattern| - 1];
      assert left[..|left| - (j - 1)] == pattern[..|pattern| - j];
      Outside(chain[1..], left, j - 1)
    else
      Outside(chain[1..], pattern, j)
  }

  lemma {:induction false} OutsideIsPrefix(chain: seq<Context>, pattern: seq<string>, j: nat)
    requires Reads(chain, pattern) && j <= |pattern|
    ensures Names(Outside(chain, pattern, j)) <= Names(chain)
    ensures j > 0 ==> |Names(Outside(chain, pattern, j))| < |Names(chain)|
  {
    if j > 0 {
      if EndsIn(pattern, chain[0]) {
        OutsideIsPrefix(chain[1..], pattern[..|pattern| - 1], j - 1);
      } else {
        OutsideIsPrefix(chain[1..], pattern, j);
      }
    }
  }

  /** The chain ends with some components exactly if nothing is skipped between the places of those. */
  lemma {:induction false} NothingSkipped(chain: seq<Context>, pattern: seq<string>, j: nat)
    requires Reads(chain, pattern) && j <= |pattern| && Components(pattern)
    ensures EndsWith(Names(chain), pattern[|pattern| - j..]) <==>
      Names(chain) == Names(Outside(chain, pattern, j)) + pattern[|pattern| - j..]
  {
    var last := pattern[|pattern| - j..];
    OutsideIsPrefix(chain, pattern, j);
    var outside := Names(Outside(chain, pattern, j));
    assert (outside + last)[|outside|..] == last;
    if EndsWith(Names(chain), last) {
      EndIsRead(chain, pattern, j);
      assert Names(chain) == Names(chain)[..|Names(chain)| - j] + last;
    }
  }

  lemma OutsideStep(chain: seq<Context>, pattern: seq<string>, j: nat)
    requires Reads(chain, pattern) && 0 < j <= |pattern|
    ensures chain != [] && chain[0].Namespace? && Names(chain) == Names(chain[1..]) + [chain[0].name]
    ensures pattern[|pattern| - 1] == MatchName(chain[0]) ==>
      var left := pattern[..|pattern| - 1];
      Reads(chain[1..], left) && Outside(chain, pattern, j) == Outside(chain[1..], left, j - 1)
  {
  }

  lemma {:induction false} EndIsRead(chain: seq<Context>, pattern: seq<string>, j: nat)
    requires Reads(chain, pattern) && j <= |pattern| && Components(pattern)
    requires EndsWith(Names(chain), pattern[|pattern| - j..])
    ensures Names(Outside(chain, pattern, j)) == Names(chain)[..|Names(chain)| - j]
  {
    hide Reads, Names, Outside, EndsWith;
    if j == 0 {
      OutsideAll(chain, pattern);
    } else {
      OutsideStep(chain, pattern, j);
      var left, last, inner := pattern[..|pattern| - 1], pattern[|pattern| - 1], Names(chain[1..]);
      assert pattern == left + [last] && IsComponent(last);
      LastEnds(inner, chain[0].name, left, last, j);
      EndIsRead(chain[1..], left, j - 1);
      assert inner[..|inner| - (j - 1)] == (inner + [chain[0].name])[..|inner| + 1 - j];
    }
  }

  lemma OutsideAll(chain: seq<Context>, pattern: seq<string>)
    requires Reads(chain, pattern)
    ensures Names(Outside(chain, pattern, 0)) == Names(chain)[..|Names(chain)| - 0]
  {
  }

  lemma LastEnds(names: seq<string>, name: string, left: seq<string>, last: string, j: nat)
    requires 0 < j <= |left| + 1 && EndsWith(names + [name], (left + [last])[|left| + 1 - j..])
    ensures name == last && EndsWith(names, left[|left| - (j - 1)..])
  {
    var all, end := names + [name], (left + [last])[|left| + 1 - j..];
    assert all[|all| - j..][j - 1] == name && end[j - 1] == last;
    assert left[|left| - (j - 1)..] == end[..j - 1];
    assert names[|names| - (j - 1)..] == all[|all| - j..][..j - 1];
  }

  // ------------------------------------------------------------------ the outer namespace

  /**
    `getOuterNamespace`: walks outwards while the namespaces match the partial name from behind, and
    gives the place of the last one.  The chain starts with the inner namespace.
    */
  method GetOuterNamespace(chain: seq<Context>, partial: seq<string>) returns (outer: Option<nat>)
    ensures outer.Some? <==> partial != [] && EndsWith(Names(chain), partial)
    ensures outer.Some? ==>
      && outer.value < |chain| && chain[outer.value].Namespace?
      && Names(chain[outer.value + 1..]) == Names(chain)[..|Names(chain)| - |partial|]
  {
    if partial == [] {
      return None;
    }
    var at: nat := 0;
    var current := 0;
    var n: nat := |partial|;
    ghost var names := Names(chain);
    while n > 0
      invariant n <= |partial| && at <= |chain| && |partial| - n <= |names|
      invariant Names(chain[at..]) == names[..|names| - (|partial| - n)]
      invariant names[|names| - (|partial| - n)..] == partial[n..]
      invariant n < |partial| ==> current < |chain| && chain[current].Namespace? && at == current + 1
    {
      while at < |chain| && !chain[at].Namespace?
        invariant at <= |chain|
        invariant Names(chain[at..]) == names[..|names| - (|partial| - n)]
      {
        at := at + 1;
      }
      if at == |chain| {
        assert |names| == |partial| - n;
        return None;
      }
      ghost var rest := Names(chain[at..]);
      assert chain[at..][1..] == chain[at + 1..];
      assert rest[|rest| - 1] == chain[at].name;
      assert names[|names| - (|partial| - n) - 1] == rest[|rest| - 1];
      if partial[n - 1] != chain[at].name {
        assert partial[n - 1] != names[|names| - |partial| + (n - 1)] || |names| < |partial|;
        if |partial| <= |names| {
          assert names[|names| - |partial|..][n - 1] == names[|names| - |partial| + (n - 1)];
        }
        return None;
      }
      current := at;
      n := n - 1;
      at := at + 1;
    }
    return Some(current);
  }

  // ------------------------------------------------------------------ the text of a file

  /**
    What encloses a place in a file: a namespace, or some other construct from its first to its last
    character, such as a comment, a literal, an escaped line break, a class or any declaration.
    */
  datatype Scope = Named(name: string) | Construct

  /** A character, with what the compiler sees end and begin at it. */
  datatype Char = Char(c: char, leaves: nat, enters: seq<Scope>)

  type Text = seq<Char>

  /** What is open behind some text. */
  function After(stack: seq<Scope>, text: Text): seq<Scope>
    decreases |text|
  {
    if text == [] then stack else After(Then(stack, text[0]), text[1..])
  }

  function Then(stack: seq<Scope>, x: Char): seq<Scope> {
    (if x.leaves <= |stack| then stack[..|stack| - x.leaves] else []) + x.enters
  }

  lemma {:induction false} AfterConcatenation(stack: seq<Scope>, a: Text, b: Text)
    ensures After(stack, a + b) == After(After(stack, a), b)
    decreases |a|
  {
    if a == [] {
      assert a + b == b;
    } else {
      assert (a + b)[1..] == a[1..] + b;
      AfterConcatenation(Then(stack, a[0]), a[1..], b);
    }
  }

  lemma AfterOne(stack: seq<Scope>, x: Char)
    ensures After(stack, [x]) == Then(stack, x)
  {
    assert [x][1..] == [];
  }

  function Spaces(names: seq<string>): seq<Scope> {
    seq(|names|, n requires 0 <= n < |names| => Named(names[n]))
  }

  lemma SpacesOfParts(a: seq<string>, b: seq<string>)
    ensures Spaces(a + b) == Spaces(a) + Spaces(b)
    ensures Spaces(a) == Spaces(b) <==> a == b
  {
    assert forall n :: 0 <= n < |a| ==> Spaces(a)[n].name == a[n];
    assert forall n :: 0 <= n < |b| ==> Spaces(b)[n].name == b[n];
  }

  /** Characters at which nothing begins or ends. */
  function Plain(s: string): Text {
    seq(|s|, n requires 0 <= n < |s| => Char(s[n], 0, []))
  }

  lemma {:induction false} AfterPlain(stack: seq<Scope>, s: string)
    ensures After(stack, Plain(s)) == stack
    decreases |s|
  {
    if s != "" {
      assert Plain(s)[1..] == Plain(s[1..]);
      assert Then(stack, Plain(s)[0]) == stack;
      AfterPlain(stack, s[1..]);
    }
  }

  // ------------------------------------------------------------------ the next line

  predicate IsBreak(c: char) {
    c == '\n' || c == '\r'
  }

  predicate IsWhite(c: char) {
    c == ' ' || c == '\t' || c == '\U{B}' || c == '\U{C}' || IsBreak(c)
  }

  /** `getEscapedNewLineSize`: white space up to and with a line break of one or two characters, or 0. */
  function EscapedNewLineSize(text: Text, at: nat): (n: nat)
    requires at <= |text|
    ensures at + n <= |text|
    decreases |text| - at
  {
    if at == |text| || !IsWhite(text[at].c) then 0
    else if !IsBreak(text[at].c) then
      var rest := EscapedNewLineSize(text, at + 1);
      if rest == 0 then 0 else rest + 1
    else if at + 1 < |text| && IsBreak(text[at + 1].c) && text[at + 1].c != text[at].c then 2
    else 1
  }

  /**
    `getCharAndSizeSlow`: how many characters are read as one.  An escaped line break goes with what
    follows it, but for another line break or the end.
    */
  function SizeOfNext(text: Text, at: nat): (n: nat)
    requires at < |text|
    ensures n > 0 && at + n <= |text|
    decreases |text| - at
  {
    var escaped := if text[at].c == '\\' then EscapedNewLineSize(text, at + 1) else 0;
    var next := at + 1 + escaped;
    if escaped == 0 then 1
    else if next == |text| || IsBreak(text[next].c) || text[next].c == '\0' then 1 + escaped
    else 1 + escaped + SizeOfNext(text, next)
  }

  /** The end of the line as it is read: at a line break that is not escaped, or at the end of the file. */
  function LineEnd(text: Text, at: nat): (n: nat)
    requires at <= |text|
    ensures at <= n <= |text|
    decreases |text| - at
  {
    if at == |text| || IsBreak(text[at].c) then at else LineEnd(text, at + SizeOfNext(text, at))
  }

  /** How many characters are read until then. */
  function LineLength(text: Text, at: nat): (n: nat)
    requires at <= |text|
    ensures at + n <= LineEnd(text, at)
    decreases |text| - at
  {
    if at == |text| || IsBreak(text[at].c) then 0 else 1 + LineLength(text, at + SizeOfNext(text, at))
  }

  function NextLine(text: Text, at: nat): (n: nat)
    requires at <= |text|
    ensures at <= n <= |text| && (at < |text| ==> at < n)
  {
    var end := at + LineLength(text, at);
    if end == |text| then end else end + 1
  }

  /** `getStartOfNextLine`: the length of what is read of the line is taken for its length in the file. */
  method GetStartOfNextLine(text: Text, at: nat) returns (n: nat)
    requires at < |text|
    ensures n == NextLine(text, at)
  {
    var size: nat, next: nat := 0, at;
    while next < |text| && !IsBreak(text[next].c)
      invariant at <= next <= |text| && LineLength(text, at) == size + LineLength(text, next)
      decreases |text| - next
    {
      next := next + SizeOfNext(text, next);
      size := size + 1;
    }
    n := at + size;
    if n != |text| {
      n := n + 1;
    }
  }

  /** No line break is escaped before the line ends. */
  predicate Unescaped(text: Text, at: nat)
    requires at <= |text|
    decreases |text| - at
  {
    at == |text| || IsBreak(text[at].c) || (SizeOfNext(text, at) == 1 && Unescaped(text, at + 1))
  }

  lemma {:induction false} LengthIsExact(text: Text, at: nat)
    requires at <= |text|
    ensures at + LineLength(text, at) == LineEnd(text, at) <==> Unescaped(text, at)
    decreases |text| - at
  {
    if at < |text| && !IsBreak(text[at].c) {
      LengthIsExact(text, at + SizeOfNext(text, at));
    }
  }

  /** It is the place behind the line break that ends the line if and only if none is escaped before. */
  lemma NextLineIsExact(text: Text, at: nat)
    requires at < |text| && LineEnd(text, at) < |text|
    ensures NextLine(text, at) == LineEnd(text, at) + 1 <==> Unescaped(text, at)
  {
    LengthIsExact(text, at);
  }

  // ------------------------------------------------------------------ the effect of a line

  /** How many scopes some text leaves, and which it enters after that. */
  function Effect(line: Text): (nat, seq<Scope>) {
    if line == [] then
      (0, [])
    else
      var (left, entered) := Effect(line[..|line| - 1]);
      var x := line[|line| - 1];
      if x.leaves <= |entered| then (left, entered[..|entered| - x.leaves] + x.enters)
      else (left + (x.leaves - |entered|), x.enters)
  }

  lemma EffectOfOne(stack: seq<Scope>, left: nat, entered: seq<Scope>, x: Char)
    requires left <= |stack|
    ensures x.leaves <= |entered| ==>
      Then(stack[..|stack| - left] + entered, x) ==
      stack[..|stack| - left] + (entered[..|entered| - x.leaves] + x.enters)
    ensures |entered| < x.leaves <= |entered| + |stack| - left ==>
      Then(stack[..|stack| - left] + entered, x) == stack[..|stack| - (left + (x.leaves - |entered|))] + x.enters
  {
    var now := stack[..|stack| - left] + entered;
    if x.leaves <= |entered| {
      assert now[..|now| - x.leaves] == stack[..|stack| - left] + entered[..|entered| - x.leaves];
    } else if x.leaves <= |now| {
      assert now[..|now| - x.leaves] == stack[..|stack| - (left + (x.leaves - |entered|))];
    }
  }

  /** Nothing is left that is not open. */
  predicate Closable(stack: seq<Scope>, text: Text)
    decreases |text|
  {
    text == [] || (text[0].leaves <= |stack| && Closable(Then(stack, text[0]), text[1..]))
  }

  lemma {:induction false} ClosableParts(stack: seq<Scope>, a: Text, b: Text)
    requires Closable(stack, a + b)
    ensures Closable(stack, a) && Closable(After(stack, a), b)
    decreases |a|
  {
    if a == [] {
      assert a + b == b;
    } else {
      assert (a + b)[1..] == a[1..] + b;
      ClosableParts(Then(stack, a[0]), a[1..], b);
    }
  }

  lemma {:induction false} EffectIsApplied(stack: seq<Scope>, line: Text)
    requires Closable(stack, line)
    ensures Effect(line).0 <= |stack|
    ensures After(stack, line) == stack[..|stack| - Effect(line).0] + Effect(line).1
    decreases |line|
  {
    if line == [] {
      assert stack[..|stack| - 0] + [] == stack;
    } else {
      var before, x := line[..|line| - 1], line[|line| - 1];
      assert line == before + [x];
      ClosableParts(stack, before, [x]);
      AfterConcatenation(stack, before, [x]);
      AfterOne(After(stack, before), x);
      EffectIsApplied(stack, before);
      EffectOfOne(stack, Effect(before).0, Effect(before).1, x);
    }
  }

  /** Some text leads from what is open before it to what is open behind it. */
  predicate Leads(stack: seq<Scope>, line: Text, place: seq<Scope>) {
    var (left, entered) := Effect(line);
    left <= |stack| && stack[..|stack| - left] + entered == place
  }

  // ------------------------------------------------------------------ wrapping

  /** The heading of a namespace, with its brace. */
  function Heading(name: string): Text {
    [Char('n', 0, [Construct])] + Plain("amespace " + name + " ") + [Char('{', 1, [Named(name)])]
  }

  function OpenLine(name: string): Text {
    Heading(name) + Plain("\n")
  }

  /** The closing brace and a comment. */
  function CloseLine(name: string): Text {
    [Char('}', 1, [])] + Plain(" ") + [Char('/', 0, [Construct])] + Plain("/ namespace " + name) + [Char('\n', 1, [])]
  }

  lemma HeadingOpens(stack: seq<Scope>, name: string)
    ensures After(stack, Heading(name)) == stack + [Named(name)]
  {
    hide After;
    var first, middle, last :=
      [Char('n', 0, [Construct])], Plain("amespace " + name + " "), [Char('{', 1, [Named(name)])];
    assert stack[..|stack|] == stack;
    AfterConcatenation(stack, first + middle, last);
    AfterConcatenation(stack, first, middle);
    AfterOne(stack, first[0]);
    AfterPlain(stack + [Construct], "amespace " + name + " ");
    AfterOne(stack + [Construct], last[0]);
    assert (stack + [Construct])[..|stack|] == stack;
  }

  lemma LinesOpenAndClose(stack: seq<Scope>, name: string)
    ensures After(stack, OpenLine(name)) == stack + [Named(name)]
    ensures After(stack + [Named(name)], CloseLine(name)) == stack
  {
    hide After, Heading;
    HeadingOpens(stack, name);
    AfterConcatenation(stack, Heading(name), Plain("\n"));
    AfterPlain(stack + [Named(name)], "\n");
    assert stack[..|stack|] == stack;
    var inside := stack + [Named(name)];
    var brace, slash, text, last :=
      [Char('}', 1, [])], [Char('/', 0, [Construct])], Plain("/ namespace " + name), [Char('\n', 1, [])];
    AfterConcatenation(inside, brace + Plain(" ") + slash + text, last);
    AfterConcatenation(inside, brace + Plain(" ") + slash, text);
    AfterConcatenation(inside, brace + Plain(" "), slash);
    AfterConcatenation(inside, brace, Plain(" "));
    AfterOne(inside, brace[0]);
    assert inside[..|stack|] == stack && stack + [] == stack;
    AfterPlain(stack, " ");
    AfterOne(stack, slash[0]);
    AfterPlain(stack + [Construct], "/ namespace " + name);
    AfterOne(stack + [Construct], last[0]);
    assert (stack + [Construct])[..|stack|] == stack;
  }

  /** The loop of `wrapCodeInNamespace`: from the inside outwards. */
  method WrapCodeInNamespace(names: seq<string>, code: Text) returns (r: Text)
    requires code != []
    ensures r == Wrapped(names, code)
  {
    r := code;
    if r[|r| - 1].c != '\n' {
      r := r + Plain("\n");
    }
    var left := names;
    while left != []
      invariant Wrapped(names, code) == Wrap(left, r)
    {
      var last := left[|left| - 1];
      WrapInnermost(left, r);
      r := OpenLine(last) + r + CloseLine(last);
      left := left[..|left| - 1];
    }
  }

  function Ended(code: Text): Text
    requires code != []
  {
    if code[|code| - 1].c == '\n' then code else code + Plain("\n")
  }

  function Wrapped(names: seq<string>, code: Text): Text
    requires code != []
  {
    Wrap(names, Ended(code))
  }

  function Wrap(names: seq<string>, code: Text): Text {
    if names == [] then code else OpenLine(names[0]) + Wrap(names[1..], code) + CloseLine(names[0])
  }

  lemma {:induction false} WrapInnermost(names: seq<string>, code: Text)
    requires names != []
    ensures Wrap(names, code) ==
      Wrap(names[..|names| - 1], OpenLine(names[|names| - 1]) + code + CloseLine(names[|names| - 1]))
  {
    hide OpenLine, CloseLine;
    if |names| > 1 {
      WrapInnermost(names[1..], code);
      assert names[1..][..|names| - 2] == names[..|names| - 1][1..];
    }
  }

  function Openings(names: seq<string>): Text {
    if names == [] then [] else OpenLine(names[0]) + Openings(names[1..])
  }

  function Closings(names: seq<string>): Text {
    if names == [] then [] else Closings(names[1..]) + CloseLine(names[0])
  }

  lemma Regroup(a: Text, b: Text, c: Text, d: Text, e: Text)
    ensures a + (b + c + d) + e == (a + b) + c + (d + e)
  {
  }

  lemma {:induction false} WrapSurrounds(names: seq<string>, code: Text)
    ensures Wrap(names, code) == Openings(names) + code + Closings(names)
  {
    hide OpenLine, CloseLine;
    if names == [] {
      assert [] + code + [] == code;
    } else {
      WrapSurrounds(names[1..], code);
      Regroup(OpenLine(names[0]), Openings(names[1..]), code, Closings(names[1..]), CloseLine(names[0]));
    }
  }

  /** The wrapping opens all the names in front of the code, and closes them behind it. */
  lemma {:induction false} WrapOpensAndCloses(names: seq<string>, stack: seq<Scope>)
    ensures After(stack, Openings(names)) == stack + Spaces(names)
    ensures After(stack + Spaces(names), Closings(names)) == stack
  {
    hide After, OpenLine, CloseLine, Spaces;
    if names == [] {
      NoNames(stack);
    } else {
      WrapOpensAndCloses(names[1..], stack + [Named(names[0])]);
      FirstName(stack, names);
      LinesOpenAndClose(stack, names[0]);
      AfterConcatenation(stack, OpenLine(names[0]), Openings(names[1..]));
      AfterConcatenation(stack + Spaces(names), Closings(names[1..]), CloseLine(names[0]));
    }
  }

  lemma NoNames(stack: seq<Scope>)
    ensures stack + Spaces([]) == stack && After(stack, []) == stack
  {
  }

  lemma FirstName(stack: seq<Scope>, names: seq<string>)
    requires names != []
    ensures stack + [Named(names[0])] + Spaces(names[1..]) == stack + Spaces(names)
  {
  }

  // ------------------------------------------------------------------ moving the code

  /** The braces of a namespace. */
  datatype NamespaceDecl = NamespaceDecl(open: nat, close: nat)

  /** How many namespaces are open in front of a closing brace: `namespace a::b {` has one for both. */
  function Enclosed(nest: seq<NamespaceDecl>, n: nat): (m: nat)
    requires n < |nest|
    ensures n < m <= |nest|
    decreases |nest| - n
  {
    if n + 1 < |nest| && nest[n + 1].close == nest[n].close then Enclosed(nest, n + 1) else n + 1
  }

  ghost predicate Braces(text: Text, decl: NamespaceDecl) {
    decl.open < decl.close < |text| && text[decl.open].c == '{' && text[decl.close].c == '}'
  }

  ghost predicate EndsAt(text: Text, nest: seq<NamespaceDecl>, path: seq<string>, n: nat)
    requires n < |nest| == |path|
  {
    nest[n].close < |text| && After([], text[..nest[n].close]) == Spaces(path[..Enclosed(nest, n)])
  }

  /** The namespaces around some code, outermost first, each inside the one before. */
  ghost predicate Nested(text: Text, nest: seq<NamespaceDecl>, path: seq<string>) {
    && |nest| == |path| > 0
    && (forall n {:trigger Braces(text, nest[n])} :: 0 <= n < |nest| ==> Braces(text, nest[n]))
    && (forall n, m :: 0 <= n <= m < |nest| ==> nest[m].close <= nest[n].close)
    && nest[|nest| - 1].open < nest[|nest| - 1].close < |text|
    && After([], text[..nest[|nest| - 1].open + 1]) == Spaces(path)
    && (forall n {:trigger EndsAt(text, nest, path, n)} :: 0 <= n < |nest| ==> EndsAt(text, nest, path, n))
    && Calm(text[nest[|nest| - 1].open + 1])
  }

  /** White space between two constructs begins and ends nothing. */
  predicate Calm(x: Char) {
    IsWhite(x.c) ==> x.leaves == 0 && x.enters == []
  }

  /** What stands between the braces of the old namespace. */
  function Body(text: Text, inner: NamespaceDecl): Text
    requires inner.open < inner.close < |text|
  {
    text[inner.open + 1..inner.close]
  }

  /** `getLocAfterNamespaceLBrace`: one character behind the end of the brace. */
  function Start(inner: NamespaceDecl): nat {
    inner.open + 2
  }

  /** What is taken out: at least one character. */
  predicate HasCode(text: Text, inner: NamespaceDecl) {
    Start(inner) < inner.close < |text|
  }

  function Code(text: Text, inner: NamespaceDecl): (r: Text)
    requires HasCode(text, inner)
    ensures r != []
  {
    text[Start(inner)..inner.close]
  }

  /** The characters of some text but for white space. */
  function Solid(text: Text): string {
    if text == [] then ""
    else (if IsWhite(text[0].c) then "" else [text[0].c]) + Solid(text[1..])
  }

  /** Everything between the braces is taken out if and only if white space follows the brace. */
  lemma NothingIsLeftBehind(text: Text, inner: NamespaceDecl)
    requires HasCode(text, inner)
    ensures Solid(Code(text, inner)) == Solid(Body(text, inner)) <==> IsWhite(text[inner.open + 1].c)
  {
    var body, code := Body(text, inner), Code(text, inner);
    assert body[1..] == code;
    if !IsWhite(body[0].c) {
      assert |Solid(body)| == 1 + |Solid(code)|;
    } else {
      assert "" + Solid(code) == Solid(code);
    }
  }

  function NonEmpty(pieces: seq<string>): seq<string> {
    if pieces == [] then []
    else (if pieces[0] == "" then [] else [pieces[0]]) + NonEmpty(pieces[1..])
  }

  lemma {:induction false} ComponentsAreNotEmpty(cs: seq<string>)
    requires Components(cs)
    ensures NonEmpty(cs) == cs
  {
    if cs != [] {
      assert IsComponent(cs[0]);
      ComponentsAreNotEmpty(cs[1..]);
    }
  }

  /** Where the code goes: behind the line on which the outermost of the `last` namespaces ends. */
  function Insertion(text: Text, nest: seq<NamespaceDecl>, names: seq<string>, last: seq<string>): nat
    requires |nest| == |names| > 0 && forall n :: 0 <= n < |nest| ==> nest[n].close < |text|
  {
    if last != [] && EndsWith(names, last) then NextLine(text, nest[|nest| - |last|].close)
    else Start(nest[|nest| - 1])
  }

  /**
    The choice in `moveOldNamespace`: behind the line on which the outer namespace ends, or at the
    start of the old namespace if there is no outer one.
    */
  method InsertionPoint(
    text: Text, chain: seq<Context>, nest: seq<NamespaceDecl>, diffOld: string, ghost last: seq<string>)
    returns (p: nat)
    requires Nested(text, nest, Names(chain))
    requires Components(last) && diffOld == Join(last)
    ensures forall n :: 0 <= n < |nest| ==> nest[n].close < |text|
    ensures p == Insertion(text, nest, Names(chain), last)
  {
    NestIsInside(text, nest, Names(chain));
    var pieces := NonEmpty(Split(diffOld));
    SplitJoin(last);
    ComponentsAreNotEmpty(last);
    var outer := GetOuterNamespace(chain, pieces);
    p := Start(nest[|nest| - 1]);
    if outer.Some? {
      var n := |Names(chain[outer.value + 1..])|;
      p := GetStartOfNextLine(text, nest[n].close);
    }
  }

  /** A place that the code can go to. */
  predicate IsPlace(text: Text, inner: NamespaceDecl, p: nat) {
    p <= |text| && (p == Start(inner) || inner.close < p)
  }

  lemma WrapIsLonger(names: seq<string>, code: Text)
    requires code != []
    ensures |Wrapped(names, code)| >= |Openings(names)|
  {
    hide OpenLine, CloseLine;
    WrapSurrounds(names, Ended(code));
  }

  /** The file with the code of the inner namespace moved to `p`. */
  function Moved(text: Text, inner: NamespaceDecl, p: nat, names: seq<string>): (r: Text)
    requires HasCode(text, inner) && IsPlace(text, inner, p)
    ensures CodeAt(text, inner, p, names) <= |r|
  {
    WrapIsLonger(names, Code(text, inner));
    Before(text, inner, p) + Wrapped(names, Code(text, inner)) + text[if p == Start(inner) then inner.close else p..]
  }

  /** What is in front of the moved code and its wrapping. */
  function Before(text: Text, inner: NamespaceDecl, p: nat): Text
    requires HasCode(text, inner) && IsPlace(text, inner, p)
  {
    text[..Start(inner)] + (if p == Start(inner) then [] else text[inner.close..p])
  }

  lemma AfterStart(text: Text, nest: seq<NamespaceDecl>, path: seq<string>)
    requires Nested(text, nest, path) && HasCode(text, nest[|nest| - 1])
    requires IsWhite(text[nest[|nest| - 1].open + 1].c)
    ensures After([], text[..Start(nest[|nest| - 1])]) == Spaces(path)
  {
    var open, x := nest[|nest| - 1].open, text[nest[|nest| - 1].open + 1];
    assert Calm(x);
    hide After, Nested;
    assert text[..open + 2] == text[..open + 1] + [x];
    AfterConcatenation([], text[..open + 1], [x]);
    AfterOne(Spaces(path), x);
    assert Spaces(path)[..|Spaces(path)| - 0] + [] == Spaces(path);
  }

  /** Taking the code out does not change what is open behind the place it stood. */
  lemma BeforeKeepsStack(text: Text, nest: seq<NamespaceDecl>, path: seq<string>, p: nat)
    requires Nested(text, nest, path) && HasCode(text, nest[|nest| - 1]) && IsPlace(text, nest[|nest| - 1], p)
    requires IsWhite(text[nest[|nest| - 1].open + 1].c)
    ensures After([], Before(text, nest[|nest| - 1], p)) ==
      if p == Start(nest[|nest| - 1]) then Spaces(path) else After([], text[..p])
  {
    AfterStart(text, nest, path);
    assert EndsAt(text, nest, path, |nest| - 1);
    assert path[..|nest|] == path;
    hide After, Nested;
    var inner, start := nest[|nest| - 1], text[..Start(nest[|nest| - 1])];
    if p == Start(inner) {
      assert start + [] == start;
    } else {
      var rest := text[inner.close..p];
      AfterConcatenation([], start, rest);
      assert text[..p] == text[..inner.close] + rest;
      AfterConcatenation([], text[..inner.close], rest);
    }
  }

  lemma AtInsertion(text: Text, nest: seq<NamespaceDecl>, path: seq<string>, t: nat, place: seq<Scope>)
    requires Nested(text, nest, path) && t < |nest| && nest[t].close < |text| && Closable([], text)
    ensures After([], text[..NextLine(text, nest[t].close)]) == place <==>
      Leads(Spaces(path[..Enclosed(nest, t)]), LastLine(text, nest[t]), place)
  {
    assert EndsAt(text, nest, path, t);
    hide After, Closable, Effect, NextLine, Nested, Spaces, Enclosed;
    var start, line := text[..nest[t].close], LastLine(text, nest[t]);
    var p := NextLine(text, nest[t].close);
    assert text[..p] == start + line;
    assert text == text[..p] + text[p..];
    ClosableParts([], text[..p], text[p..]);
    ClosableParts([], start, line);
    AfterConcatenation([], start, line);
    EffectIsApplied(Spaces(path[..Enclosed(nest, t)]), line);
  }

  /** What is passed from the closing brace of a namespace to the next line. */
  function LastLine(text: Text, decl: NamespaceDecl): Text
    requires decl.close < |text|
  {
    text[decl.close..NextLine(text, decl.close)]
  }

  /** Where the moved code is in the new file: behind the names that were opened for it. */
  function CodeAt(text: Text, inner: NamespaceDecl, p: nat, names: seq<string>): nat
    requires HasCode(text, inner) && IsPlace(text, inner, p)
  {
    |Before(text, inner, p)| + |Openings(names)|
  }

  lemma CodeIsThere(text: Text, inner: NamespaceDecl, p: nat, names: seq<string>)
    requires HasCode(text, inner) && IsPlace(text, inner, p)
    ensures var code, r, q := Code(text, inner), Moved(text, inner, p, names), CodeAt(text, inner, p, names);
      && q + |code| <= |r| && r[q..q + |code|] == code
      && After([], r[..q]) == After([], Before(text, inner, p)) + Spaces(names)
  {
    hide Before, Wrap, Openings, Closings, After, Spaces, Code;
    var before, code := Before(text, inner, p), Code(text, inner);
    var rest := text[if p == Start(inner) then inner.close else p..];
    WrapSurrounds(names, Ended(code));
    assert Moved(text, inner, p, names) == before + (Openings(names) + Ended(code) + Closings(names)) + rest;
    Surrounded(before, Openings(names), Ended(code), |code|, Closings(names), rest);
    assert Ended(code)[..|code|] == code;
    AfterConcatenation([], before, Openings(names));
    WrapOpensAndCloses(names, After([], before));
  }

  /** Where the code of the old namespace goes. */
  ghost function Target(
    text: Text, nest: seq<NamespaceDecl>, full: seq<string>, old_: seq<string>, new_: seq<string>): (p: nat)
    requires Nested(text, nest, full) && HasCode(text, nest[|nest| - 1])
    ensures IsPlace(text, nest[|nest| - 1], p)
  {
    NestIsInside(text, nest, full);
    Insertion(text, nest, full, old_[CommonPrefix(old_, new_)..])
  }

  lemma NestIsInside(text: Text, nest: seq<NamespaceDecl>, full: seq<string>)
    requires Nested(text, nest, full)
    ensures forall n :: 0 <= n < |nest| ==> nest[n].open < nest[n].close < |text|
    ensures forall n :: 0 <= n < |nest| ==> nest[|nest| - 1].close <= nest[n].close
  {
    forall n | 0 <= n < |nest|
      ensures nest[n].open < nest[n].close < |text|
    {
      assert Braces(text, nest[n]);
    }
  }

  /** What is around the code once it has been moved. */
  ghost function NewPlace(
    text: Text, nest: seq<NamespaceDecl>, full: seq<string>, old_: seq<string>, new_: seq<string>): seq<Scope>
    requires Nested(text, nest, full) && HasCode(text, nest[|nest| - 1])
  {
    var inner, p := nest[|nest| - 1], Target(text, nest, full, old_, new_);
    var names := new_[CommonPrefix(old_, new_)..];
    After([], Moved(text, inner, p, names)[..CodeAt(text, inner, p, names)])
  }

  /** It is opened there, inside of whatever is open at the insertion point. */
  lemma NewPlaceIsOpened(
    text: Text, nest: seq<NamespaceDecl>, full: seq<string>, old_: seq<string>, new_: seq<string>)
    requires Nested(text, nest, full) && HasCode(text, nest[|nest| - 1])
    requires IsWhite(text[nest[|nest| - 1].open + 1].c)
    ensures var k, p := CommonPrefix(old_, new_), Target(text, nest, full, old_, new_);
      NewPlace(text, nest, full, old_, new_) ==
      (if p == Start(nest[|nest| - 1]) then Spaces(full) else After([], text[..p])) + Spaces(new_[k..])
  {
    hide After, Openings, Before, Moved, CodeAt, Target, Nested, HasCode, IsPlace, Spaces, IsWhite, Code;
    HasInner(text, nest, full);
    var inner, p := nest[|nest| - 1], Target(text, nest, full, old_, new_);
    BeforeKeepsStack(text, nest, full, p);
    CodeIsThere(text, inner, p, new_[CommonPrefix(old_, new_)..]);
  }

  /** The namespaces that remain around the first component in which the names differ. */
  function Around(chain: seq<Context>, old_: seq<string>, new_: seq<string>): seq<string>
    requires Matches(chain, old_)
  {
    Names(Outside(chain, old_, |old_| - CommonPrefix(old_, new_)))
  }

  lemma {:induction false} AtLeastAsLong(chain: seq<Context>, pattern: seq<string>)
    requires Reads(chain, pattern)
    ensures |pattern| <= |Names(chain)|
  {
    if chain != [] && chain[0].Namespace? {
      AtLeastAsLong(chain[1..], if EndsIn(pattern, chain[0]) then pattern[..|pattern| - 1] else pattern);
    }
  }

  /** The first of those that are left behind ends in the file. */
  lemma OuterEnds(
    text: Text, nest: seq<NamespaceDecl>, chain: seq<Context>, old_: seq<string>, new_: seq<string>)
    requires Matches(chain, old_) && Nested(text, nest, Names(chain))
    ensures Around(chain, old_, new_) <= Names(chain)
    ensures var t := |Around(chain, old_, new_)|;
      CommonPrefix(old_, new_) < |old_| ==> t < |nest| && nest[t].close < |text|
    ensures CommonPrefix(old_, new_) == |old_| ==> Around(chain, old_, new_) == Names(chain)
    ensures |old_| <= |nest| == |Names(chain)|
  {
    NestIsInside(text, nest, Names(chain));
    hide Names, Outside, Reads, EndsAt, Braces, After;
    var k := CommonPrefix(old_, new_);
    AtLeastAsLong(chain, old_);
    OutsideIsPrefix(chain, old_, |old_| - k);
    if k == |old_| {
      OutsideAll(chain, old_);
      assert Names(chain)[..|Names(chain)| - 0] == Names(chain);
    }
  }

  /**
    The outer namespace is found, and the line on which it ends leads from the namespaces that are
    open in front of its brace to a given place.
    */
  ghost predicate LineLeads(
    text: Text, nest: seq<NamespaceDecl>, chain: seq<Context>, old_: seq<string>, new_: seq<string>,
    place: seq<string>)
    requires Matches(chain, old_)
  {
    var full, around := Names(chain), Around(chain, old_, new_);
    && full == around + old_[CommonPrefix(old_, new_)..]
    && |around| < |nest| <= |full| && nest[|around|].close < |text|
    && Leads(Spaces(full[..Enclosed(nest, |around|)]), LastLine(text, nest[|around|]), Spaces(place))
  }

  /** The whole code stands in the given namespaces, and in nothing else. */
  ghost predicate MovedTo(
    text: Text, nest: seq<NamespaceDecl>, full: seq<string>, old_: seq<string>, new_: seq<string>,
    place: seq<string>)
    requires Nested(text, nest, full) && HasCode(text, nest[|nest| - 1])
  {
    && Solid(Code(text, nest[|nest| - 1])) == Solid(Body(text, nest[|nest| - 1]))
    && NewPlace(text, nest, full, old_, new_) == Spaces(place)
  }

  /**
    The old namespace is the one that the matcher finds, so between and around the namespaces that its
    name writes there may be others, inline or anonymous.  Its whole code stands in what remains around
    the first component in which the names differ, and there in the rest of the new name, if and only
    if white space follows its brace, and the old name has no such component, or nothing unwritten
    stands further inside and the line on which the outer namespace ends leads back to what remains.
    */
  lemma MovedCodeStandsInNewNamespace(
    text: Text, nest: seq<NamespaceDecl>, chain: seq<Context>, old_: seq<string>, new_: seq<string>)
    requires Matches(chain, old_) && Components(old_) && Nested(text, nest, Names(chain)) && Closable([], text)
    requires HasCode(text, nest[|nest| - 1])
    ensures var k, around := CommonPrefix(old_, new_), Around(chain, old_, new_);
      MovedTo(text, nest, Names(chain), old_, new_, around + new_[k..]) <==>
        && IsWhite(text[nest[|nest| - 1].open + 1].c)
        && (k == |old_| || LineLeads(text, nest, chain, old_, new_, around))
  {
    hide Matches, Nested, Names, Closable, NewPlace, Around, Components, LineLeads, HasCode, IsWhite, Solid, Spaces;
    var full, k, around := Names(chain), CommonPrefix(old_, new_), Around(chain, old_, new_);
    HasInner(text, nest, full);
    NothingIsLeftBehind(text, nest[|nest| - 1]);
    if IsWhite(text[nest[|nest| - 1].open + 1].c) {
      OuterEnds(text, nest, chain, old_, new_);
      SpacesOfParts(around, new_[k..]);
      if k < |old_| {
        PlaceDecides(text, nest, chain, old_, new_, around);
      } else {
        PlaceInside(text, nest, full, old_, new_);
      }
    }
  }

  lemma HasInner(text: Text, nest: seq<NamespaceDecl>, full: seq<string>)
    requires Nested(text, nest, full)
    ensures |nest| == |full| > 0 && nest[|nest| - 1].open + 1 < |text|
  {
  }

  /**
    It stands in exactly the new namespace if and only if, besides, nothing unwritten is around it
    where the names do not differ, and otherwise the line leads to the shared namespaces alone.
    */
  lemma ExactlyInNewNamespace(
    text: Text, nest: seq<NamespaceDecl>, chain: seq<Context>, old_: seq<string>, new_: seq<string>)
    requires Matches(chain, old_) && Components(old_) && Nested(text, nest, Names(chain)) && Closable([], text)
    requires HasCode(text, nest[|nest| - 1])
    ensures var k := CommonPrefix(old_, new_);
      MovedTo(text, nest, Names(chain), old_, new_, new_) <==>
        && IsWhite(text[nest[|nest| - 1].open + 1].c)
        && if k == |old_| then Names(chain) == old_ else LineLeads(text, nest, chain, old_, new_, old_[..k])
  {
    hide Matches, Nested, Names, Closable, NewPlace, Around, Components, LineLeads, HasCode, IsWhite, Solid, Spaces;
    var full, k := Names(chain), CommonPrefix(old_, new_);
    HasInner(text, nest, full);
    NothingIsLeftBehind(text, nest[|nest| - 1]);
    if IsWhite(text[nest[|nest| - 1].open + 1].c) {
      OuterEnds(text, nest, chain, old_, new_);
      assert new_ == old_[..k] + new_[k..];
      SpacesOfParts(old_[..k], new_[k..]);
      if k < |old_| {
        PlaceDecides(text, nest, chain, old_, new_, old_[..k]);
      } else {
        assert old_[..k] == old_;
        PlaceInside(text, nest, full, old_, new_);
        SameEnd(Spaces(full), Spaces(old_), Spaces(new_[k..]));
        SpacesOfParts(full, old_);
      }
    }
  }

  /** Where the old name is a prefix of the new one. */
  lemma PlaceInside(
    text: Text, nest: seq<NamespaceDecl>, full: seq<string>, old_: seq<string>, new_: seq<string>)
    requires Nested(text, nest, full) && HasCode(text, nest[|nest| - 1]) && CommonPrefix(old_, new_) == |old_|
    requires IsWhite(text[nest[|nest| - 1].open + 1].c)
    ensures NewPlace(text, nest, full, old_, new_) == Spaces(full) + Spaces(new_[|old_|..])
  {
    hide Nested, NewPlace, After, NextLine, HasCode, IsWhite, Spaces;
    NewPlaceIsOpened(text, nest, full, old_, new_);
    assert old_[|old_|..] == [];
  }

  /** Where the code goes if the old name has a component in which the names differ. */
  lemma TargetIs(
    text: Text, nest: seq<NamespaceDecl>, chain: seq<Context>, old_: seq<string>, new_: seq<string>)
    requires Matches(chain, old_) && Components(old_) && Nested(text, nest, Names(chain))
    requires HasCode(text, nest[|nest| - 1]) && CommonPrefix(old_, new_) < |old_|
    ensures var k, around := CommonPrefix(old_, new_), Around(chain, old_, new_);
      && |around| < |nest| && nest[|around|].close < |text|
      && Target(text, nest, Names(chain), old_, new_) ==
           (if Names(chain) == around + old_[k..] then NextLine(text, nest[|around|].close)
            else Start(nest[|nest| - 1]))
      && NextLine(text, nest[|around|].close) != Start(nest[|nest| - 1])
  {
    hide Reads, Names, Outside, NextLine, Nested, Target, HasCode, EndsWith, Start, Insertion;
    var k, around := CommonPrefix(old_, new_), Around(chain, old_, new_);
    assert old_[|old_| - (|old_| - k)..] == old_[k..];
    TargetUnfolds(text, nest, Names(chain), old_, new_);
    NothingSkipped(chain, old_, |old_| - k);
    OuterEnds(text, nest, chain, old_, new_);
  }

  lemma TargetUnfolds(
    text: Text, nest: seq<NamespaceDecl>, full: seq<string>, old_: seq<string>, new_: seq<string>)
    requires Nested(text, nest, full) && HasCode(text, nest[|nest| - 1])
    ensures forall n :: 0 <= n < |nest| ==>
      nest[n].close < |text| && NextLine(text, nest[n].close) != Start(nest[|nest| - 1])
    ensures var last := old_[CommonPrefix(old_, new_)..];
      Target(text, nest, full, old_, new_) ==
        if last != [] && EndsWith(full, last) then NextLine(text, nest[|nest| - |last|].close)
        else Start(nest[|nest| - 1])
  {
    NestIsInside(text, nest, full);
    hide Nested, NextLine;
  }

  /** And what is around the code then. */
  lemma PlaceDecides(
    text: Text, nest: seq<NamespaceDecl>, chain: seq<Context>, old_: seq<string>, new_: seq<string>,
    path: seq<string>)
    requires Matches(chain, old_) && Components(old_) && Nested(text, nest, Names(chain)) && Closable([], text)
    requires HasCode(text, nest[|nest| - 1]) && IsWhite(text[nest[|nest| - 1].open + 1].c)
    requires CommonPrefix(old_, new_) < |old_| && |path| < |nest|
    ensures var k := CommonPrefix(old_, new_);
      NewPlace(text, nest, Names(chain), old_, new_) == Spaces(path) + Spaces(new_[k..]) <==>
      LineLeads(text, nest, chain, old_, new_, path)
  {
    hide Names, Reads, Matches, Nested, Around, Closable, NewPlace, Leads, LastLine, After, NextLine, Target,
      HasCode, IsWhite, Spaces, Enclosed;
    var full, k, around := Names(chain), CommonPrefix(old_, new_), Around(chain, old_, new_);
    OuterEnds(text, nest, chain, old_, new_);
    TargetIs(text, nest, chain, old_, new_);
    NewPlaceIsOpened(text, nest, full, old_, new_);
    AtInsertion(text, nest, full, |around|, Spaces(path));
    SameEnd(After([], text[..NextLine(text, nest[|around|].close)]), Spaces(path), Spaces(new_[k..]));
    SameEnd(Spaces(full), Spaces(path), Spaces(new_[k..]));
    SpacesOfParts(full, path);
  }

  lemma SameEnd(a: seq<Scope>, b: seq<Scope>, end: seq<Scope>)
    ensures a + end == b + end <==> a == b
  {
    if a + end == b + end {
      assert a == (a + end)[..|a|] && b == (b + end)[..|b|];
    }
  }

  lemma Surrounded(a: Text, b: Text, c: Text, n: nat, d: Text, e: Text)
    requires n <= |c|
    ensures var w, q := a + (b + c + d) + e, |a| + |b|;
      q + n <= |w| && w[..q] == a + b && w[q..q + n] == c[..n]
  {
  }

  // ------------------------------------------------------------------ files that are moved well, and others

  lemma {:induction false} SizeOfNextShifts(pre: Text, s: Text, i: nat)
    requires i < |s|
    ensures SizeOfNext(pre + s, |pre| + i) == SizeOfNext(s, i)
    decreases |s| - i
  {
    EscapedShifts(pre, s, i + 1);
    var escaped := if s[i].c == '\\' then EscapedNewLineSize(s, i + 1) else 0;
    var next := i + 1 + escaped;
    if escaped > 0 && next < |s| {
      SizeOfNextShifts(pre, s, next);
    }
  }

  lemma {:induction false} EscapedShifts(pre: Text, s: Text, i: nat)
    requires i <= |s|
    ensures EscapedNewLineSize(pre + s, |pre| + i) == EscapedNewLineSize(s, i)
    decreases |s| - i
  {
    if i < |s| {
      EscapedShifts(pre, s, i + 1);
    }
  }

  /** Where the next line begins does not depend on what is in front. */
  lemma {:induction false} LineLengthShifts(pre: Text, s: Text, i: nat)
    requires i <= |s|
    ensures LineLength(pre + s, |pre| + i) == LineLength(s, i)
    decreases |s| - i
  {
    if i < |s| && !IsBreak(s[i].c) {
      SizeOfNextShifts(pre, s, i);
      LineLengthShifts(pre, s, i + SizeOfNext(s, i));
    }
  }

  /** Headings, the code between them, and what ends the namespaces. */
  lemma NestedBy(head: Text, body: Text, tail: Text, nest: seq<NamespaceDecl>, path: seq<string>)
    requires |nest| == |path| > 0 && body != [] && Calm(body[0])
    requires After([], head) == Spaces(path) == After(Spaces(path), body)
    requires nest[|nest| - 1].open == |head| - 1
    requires forall n :: 0 <= n < |nest| ==> nest[n].open < |head| && head[nest[n].open].c == '{'
    requires forall n :: 0 <= n < |nest| ==> 0 <= nest[n].close - |head + body| < |tail|
    requires forall n :: 0 <= n < |nest| ==> tail[nest[n].close - |head + body|].c == '}'
    requires forall n :: 0 <= n < |nest| ==>
      After(Spaces(path), tail[..nest[n].close - |head + body|]) == Spaces(path[..Enclosed(nest, n)])
    requires forall n, m :: 0 <= n <= m < |nest| ==> nest[m].close <= nest[n].close
    ensures Nested(head + body + tail, nest, path)
  {
    hide After, Enclosed, Spaces;
    var text := head + body + tail;
    assert text[..|head|] == head && text[|head|] == body[0];
    forall n | 0 <= n < |nest|
      ensures Braces(text, nest[n]) && EndsAt(text, nest, path, n)
    {
      PlaceInText(head, body, tail, nest[n]);
    }
  }

  lemma PlaceInText(head: Text, body: Text, tail: Text, decl: NamespaceDecl)
    requires decl.open < |head| && head[decl.open].c == '{'
    requires 0 <= decl.close - |head + body| < |tail| && tail[decl.close - |head + body|].c == '}'
    ensures Braces(head + body + tail, decl)
    ensures After([], (head + body + tail)[..decl.close]) ==
      After(After(After([], head), body), tail[..decl.close - |head + body|])
  {
    AfterParts(head, body, tail, decl.close - |head + body|);
  }

  lemma AfterParts(head: Text, body: Text, tail: Text, i: nat)
    requires i <= |tail|
    ensures After([], (head + body + tail)[..|head + body| + i]) == After(After(After([], head), body), tail[..i])
  {
    assert (head + body + tail)[..|head + body| + i] == (head + body) + tail[..i];
    AfterConcatenation([], head + body, tail[..i]);
    AfterConcatenation([], head, body);
  }

  /** The place of the code when the outer namespace is found. */
  lemma PlaceBy(
    head: Text, body: Text, tail: Text, nest: seq<NamespaceDecl>, full: seq<string>, old_: seq<string>,
    new_: seq<string>, i: nat)
    requires Nested(head + body + tail, nest, full) && HasCode(head + body + tail, nest[|nest| - 1])
    requires body != [] && IsWhite(body[0].c) && nest[|nest| - 1].open == |head| - 1
    requires After([], head) == Spaces(full) == After(Spaces(full), body)
    requires var last := old_[CommonPrefix(old_, new_)..];
      last != [] && EndsWith(full, last) && nest[|nest| - |last|].close == |head + body| + i && i < |tail|
    ensures NewPlace(head + body + tail, nest, full, old_, new_) ==
      After(Spaces(full), tail[..NextLine(tail, i)]) + Spaces(new_[CommonPrefix(old_, new_)..])
  {
    hide After, Spaces, Nested, HasCode, LineLength, EndsWith, IsWhite, Target, NewPlace;
    var text := head + body + tail;
    assert text[|head|] == body[0];
    HasInner(text, nest, full);
    TargetUnfolds(text, nest, full, old_, new_);
    NewPlaceIsOpened(text, nest, full, old_, new_);
    LineLengthShifts(head + body, tail, i);
    assert NextLine(text, |head + body| + i) == |head + body| + NextLine(tail, i);
    AfterParts(head, body, tail, NextLine(tail, i));
  }

  const CLOSE := Char('}', 1, [])
  const BODY := Plain(" X ")

  // The headings of two namespaces.
  function TwoHeadings(): Text {
    Heading("a") + Heading("b")
  }

  // Their braces, if the outer one ends `j` characters behind the inner one.
  function TwoNamespaces(j: nat): seq<NamespaceDecl> {
    var head := TwoHeadings();
    [NamespaceDecl(|Heading("a")| - 1, |head + BODY| + j), NamespaceDecl(|head| - 1, |head + BODY|)]
  }

  lemma TwoHeadingsOpen()
    ensures After([], TwoHeadings()) == Spaces(["a", "b"]) == After(Spaces(["a", "b"]), BODY)
  {
    hide After, Heading;
    HeadingOpens([], "a");
    HeadingOpens([Named("a")], "b");
    AfterConcatenation([], Heading("a"), Heading("b"));
    assert [] + [Named("a")] == [Named("a")] && [Named("a")] + [Named("b")] == Spaces(["a", "b"]);
    AfterPlain(Spaces(["a", "b"]), " X ");
  }

  lemma TwoNamespacesNested(tail: Text, j: nat)
    requires 0 < j < |tail| && tail[0] == CLOSE && tail[j].c == '}'
    requires After(Spaces(["a", "b"]), tail[..j]) == Spaces(["a"])
    ensures Nested(TwoHeadings() + BODY + tail, TwoNamespaces(j), ["a", "b"])
    ensures HasCode(TwoHeadings() + BODY + tail, TwoNamespaces(j)[1])
  {
    hide After;
    var head, nest, path := TwoHeadings(), TwoNamespaces(j), ["a", "b"];
    TwoHeadingsOpen();
    assert path[..1] == ["a"] && path[..2] == path && tail[..0] == [];
    NoNames(Spaces(path));
    assert Enclosed(nest, 0) == 1 && Enclosed(nest, 1) == 2;
    NestedBy(head, BODY, tail, nest, path);
  }

  lemma MatchesAsWritten(a: string, b: string)
    requires IsComponent(a) && IsComponent(b)
    ensures var chain := [Namespace(b), Namespace(a)];
      Matches(chain, [a, b]) && Names(chain) == [a, b]
  {
    var chain := [Namespace(b), Namespace(a)];
    assert chain[1..] == [Namespace(a)] && chain[1..][1..] == [] && [a, b][..1] == [a] && [a][..0] == [];
    assert Names(chain[1..][1..]) == [] && Names(chain[1..]) == [a];
  }

  /** The code of `a::b`, moved to `a::c`, stands behind the line of the brace of `b`, and in `c`. */
  lemma TwoNamespacesMoved(tail: Text, j: nat)
    requires 0 < j < |tail| && tail[0] == CLOSE && tail[j].c == '}'
    requires After(Spaces(["a", "b"]), tail[..j]) == Spaces(["a"])
    ensures var text, nest, old_, new_ := TwoHeadings() + BODY + tail, TwoNamespaces(j), ["a", "b"], ["a", "c"];
      && Matches([Namespace("b"), Namespace("a")], old_) && Names([Namespace("b"), Namespace("a")]) == old_
      && Nested(text, nest, old_) && HasCode(text, nest[1])
      && NewPlace(text, nest, old_, old_, new_) ==
           After(Spaces(old_), tail[..NextLine(tail, 0)]) + [Named("c")]
  {
    hide After, NextLine, Nested, NewPlace, HasCode, Matches, Names, TwoHeadings;
    var head, nest, old_, new_ := TwoHeadings(), TwoNamespaces(j), ["a", "b"], ["a", "c"];
    MatchesAsWritten("a", "b");
    TwoHeadingsOpen();
    TwoNamespacesNested(tail, j);
    assert old_[1..] == ["b"] && new_[1..] == ["c"] && CommonPrefix(old_, new_) == 1;
    assert Spaces(["c"]) == [Named("c")];
    PlaceBy(head, BODY, tail, nest, old_, old_, new_, 0);
  }

  lemma {:induction false} AfterEach(text: Text, stacks: seq<seq<Scope>>, n: nat)
    requires |stacks| == |text| + 1 && n <= |text|
    requires forall m :: 0 <= m < |text| ==> stacks[m + 1] == Then(stacks[m], text[m])
    ensures After(stacks[0], text[..n]) == stacks[n]
  {
    if n > 0 {
      AfterEach(text, stacks, n - 1);
      assert text[..n] == text[..n - 1] + [text[n - 1]];
      AfterConcatenation(stacks[0], text[..n - 1], [text[n - 1]]);
      AfterOne(stacks[n - 1], text[n - 1]);
    }
  }

  // What is open behind some characters of a tail, and behind its first line.
  lemma Ends(tail: Text, stacks: seq<seq<Scope>>, j: nat, p: nat)
    requires |stacks| == |tail| + 1 && stacks[0] == [Named("a"), Named("b")] && j <= |tail| && p <= |tail|
    requires forall m :: 0 <= m < |tail| ==> stacks[m + 1] == Then(stacks[m], tail[m])
    ensures After(Spaces(["a", "b"]), tail[..j]) == stacks[j]
    ensures After(Spaces(["a", "b"]), tail[..p]) == stacks[p]
  {
    assert Spaces(["a", "b"]) == stacks[0];
    AfterEach(tail, stacks, j);
    AfterEach(tail, stacks, p);
  }

  /** Where the code of `a::b` stands when it is moved to `a::c`, the braces of `a` and `b` being in a tail. */
  ghost predicate StandsIn(tail: Text, j: nat, place: seq<Scope>) {
    var text, nest, old_, new_ := TwoHeadings() + BODY + tail, TwoNamespaces(j), ["a", "b"], ["a", "c"];
    && Matches([Namespace("b"), Namespace("a")], old_) && Names([Namespace("b"), Namespace("a")]) == old_
    && Nested(text, nest, old_) && HasCode(text, nest[1])
    && NewPlace(text, nest, old_, old_, new_) == place
  }

  lemma Stands(tail: Text, stacks: seq<seq<Scope>>, j: nat, p: nat)
    requires 0 < j < |tail| && tail[0] == CLOSE && tail[j].c == '}' && p == NextLine(tail, 0)
    requires |stacks| == |tail| + 1 && stacks[0] == [Named("a"), Named("b")] && stacks[j] == [Named("a")]
    requires forall m :: 0 <= m < |tail| ==> stacks[m + 1] == Then(stacks[m], tail[m])
    ensures StandsIn(tail, j, stacks[p] + [Named("c")])
  {
    hide After, NextLine, Nested, NewPlace, HasCode, Matches, Names, TwoHeadings, TwoNamespaces, Then;
    Ends(tail, stacks, j, p);
    assert Spaces(["a"]) == [Named("a")];
    TwoNamespacesMoved(tail, j);
  }

  const LINE := Char('\n', 0, [])
  const BEGIN := Char('/', 0, [Construct])
  const END := Char('/', 1, [])
  const STAR := Char('*', 0, [])

  /** With each brace on a line of its own the code stands in `a::c`. */
  lemma BracesOnTwoLines()
    ensures StandsIn([CLOSE, LINE, CLOSE], 2, [Named("a"), Named("c")])
  {
    hide StandsIn;
    var tail, a, b := [CLOSE, LINE, CLOSE], Named("a"), Named("b");
    assert LineLength(tail, 1) == 0 && LineLength(tail, 0) == 1;
    Stands(tail, [[a, b], [a], [a], []], 2, 2);
    assert [a] + [Named("c")] == [Named("a"), Named("c")];
  }

  /** With both on one line it ends up outside of `a`. */
  lemma BracesOnOneLine()
    ensures StandsIn([CLOSE, CLOSE, LINE], 1, [Named("c")])
  {
    hide StandsIn;
    var tail, a, b := [CLOSE, CLOSE, LINE], Named("a"), Named("b");
    assert LineLength(tail, 2) == 0 && LineLength(tail, 1) == 1 && LineLength(tail, 0) == 2;
    Stands(tail, [[a, b], [a], [], []], 1, 3);
    assert [] + [Named("c")] == [Named("c")];
  }

  /** A comment that begins behind the brace and ends on the next line: the code ends up in the comment. */
  lemma CommentBehindBrace()
    ensures StandsIn([CLOSE, BEGIN, STAR, LINE, STAR, END, CLOSE], 6, [Named("a"), Construct, Named("c")])
  {
    hide StandsIn;
    var tail, a, b := [CLOSE, BEGIN, STAR, LINE, STAR, END, CLOSE], Named("a"), Named("b");
    var inside := [a, Construct];
    assert LineLength(tail, 3) == 0 && LineLength(tail, 2) == 1 && LineLength(tail, 1) == 2 && LineLength(tail, 0) == 3;
    Stands(tail, [[a, b], [a], inside, inside, inside, inside, [a], []], 6, 4);
    assert inside + [Named("c")] == [Named("a"), Construct, Named("c")];
  }

  // A comment to the end of the line, with an escaped line break.
  const ESCAPED := [CLOSE, BEGIN, Char('/', 0, []), Char('\\', 0, []), LINE, STAR, Char('\n', 1, []), CLOSE]

  lemma EscapedIsShort()
    ensures NextLine(ESCAPED, 0) == 5 && LineEnd(ESCAPED, 0) == 6
  {
    var tail := ESCAPED;
    assert EscapedNewLineSize(tail, 4) == 1 && SizeOfNext(tail, 5) == 1 && SizeOfNext(tail, 3) == 3;
    assert LineLength(tail, 6) == 0 && LineLength(tail, 3) == 1;
    assert LineLength(tail, 2) == 2 && LineLength(tail, 1) == 3 && LineLength(tail, 0) == 4;
    assert LineEnd(tail, 6) == 6 && LineEnd(tail, 3) == 6 && LineEnd(tail, 2) == 6 && LineEnd(tail, 1) == 6;
  }

  /** The line is taken for shorter than it is, and the code ends up in the comment. */
  lemma EscapedLineBreak()
    ensures NextLine(ESCAPED, 0) == 5 && LineEnd(ESCAPED, 0) == 6
    ensures StandsIn(ESCAPED, 7, [Named("a"), Construct, Named("c")])
  {
    hide StandsIn, NextLine, LineEnd;
    EscapedIsShort();
    var a, b := Named("a"), Named("b");
    var inside := [a, Construct];
    Stands(ESCAPED, [[a, b], [a], inside, inside, inside, inside, inside, [a], []], 7, 5);
    assert inside + [Named("c")] == [Named("a"), Construct, Named("c")];
  }

  // One heading and one brace for two namespaces.
  function BothAtOnce(): Text {
    [Char('n', 0, [Construct])] + Plain("amespace a::b ") + [Char('{', 1, [Named("a"), Named("b")])]
  }

  lemma BothAtOnceOpen()
    ensures BothAtOnce() != []
    ensures After([], BothAtOnce()) == Spaces(["a", "b"]) == After(Spaces(["a", "b"]), BODY)
  {
    hide After;
    var first, middle, last :=
      [Char('n', 0, [Construct])], Plain("amespace a::b "), [Char('{', 1, [Named("a"), Named("b")])];
    AfterConcatenation([], first + middle, last);
    AfterConcatenation([], first, middle);
    AfterOne([], first[0]);
    AfterPlain([Construct], "amespace a::b ");
    AfterOne([Construct], last[0]);
    assert [] + [Construct] == [Construct] && [] + last[0].enters == Spaces(["a", "b"]);
    AfterPlain(Spaces(["a", "b"]), " X ");
  }

  const BOTH_END := [Char('}', 2, []), LINE]

  lemma BothAtOnceNested()
    ensures var head := BothAtOnce();
      var decl := NamespaceDecl(|head| - 1, |head + BODY|);
      Nested(head + BODY + BOTH_END, [decl, decl], ["a", "b"]) && HasCode(head + BODY + BOTH_END, decl)
  {
    hide After;
    var head, path := BothAtOnce(), ["a", "b"];
    var decl := NamespaceDecl(|head| - 1, |head + BODY|);
    BothAtOnceOpen();
    assert BOTH_END[..0] == [];
    NoNames(Spaces(path));
    assert path[..2] == path && Enclosed([decl, decl], 1) == 2 && Enclosed([decl, decl], 0) == 2;
    NestedBy(head, BODY, BOTH_END, [decl, decl], path);
  }

  lemma BothEndAtOnce()
    ensures After(Spaces(["a", "b"]), BOTH_END[..NextLine(BOTH_END, 0)]) == []
  {
    assert LineLength(BOTH_END, 1) == 0 && LineLength(BOTH_END, 0) == 1;
    Ends(BOTH_END, [[Named("a"), Named("b")], [], []], 0, 2);
  }

  /** `namespace a::b` ends both with one brace: its code, moved to `a::c`, ends up outside of `a`. */
  lemma NestedDefinition()
    ensures var head := BothAtOnce();
      var decl := NamespaceDecl(|head| - 1, |head + BODY|);
      && Nested(head + BODY + BOTH_END, [decl, decl], ["a", "b"]) && HasCode(head + BODY + BOTH_END, decl)
      && NewPlace(head + BODY + BOTH_END, [decl, decl], ["a", "b"], ["a", "b"], ["a", "c"]) == [Named("c")]
  {
    hide After, NextLine, BothAtOnce, Nested, NewPlace, HasCode;
    var head, path, new_ := BothAtOnce(), ["a", "b"], ["a", "c"];
    BothAtOnceOpen();
    var decl := NamespaceDecl(|head| - 1, |head + BODY|);
    BothAtOnceNested();
    BothEndAtOnce();
    assert path[1..] == ["b"] && new_[1..] == ["c"] && CommonPrefix(path, new_) == 1;
    assert Spaces(["c"]) == [Named("c")] && [] + [Named("c")] == [Named("c")];
    PlaceBy(head, BODY, BOTH_END, [decl, decl], path, path, new_, 0);
  }

  /** Behind a brace without white space the first character stays where it is. */
  lemma ClassBehindBrace()
    ensures var body := [Char('c', 0, [Construct])] + Plain("lass X") + [Char(';', 1, [])];
      var text := Heading("a") + body + [CLOSE];
      var decl := NamespaceDecl(|Heading("a")| - 1, |Heading("a") + body|);
      && HasCode(text, decl) && Body(text, decl) == body && Code(text, decl) == body[1..]
      && !IsWhite(text[decl.open + 1].c) && Solid(Code(text, decl)) != Solid(Body(text, decl))
  {
    var head, body := Heading("a"), [Char('c', 0, [Construct])] + Plain("lass X") + [Char(';', 1, [])];
    var text := head + body + [CLOSE];
    var decl := NamespaceDecl(|head| - 1, |head + body|);
    hide Heading, Solid;
    HeadingIsLong("a");
    assert text[|head|..|head + body|] == body && text[|head| + 1..|head + body|] == body[1..];
    assert text[decl.open + 1] == body[0];
    NothingIsLeftBehind(text, decl);
  }

  lemma HeadingIsLong(name: string)
    ensures |Heading(name)| > 1
  {
  }

  // An inline namespace between the two that the name writes.
  function ThreeHeadings(): Text {
    Heading("a") + Heading("v") + Heading("b")
  }

  function ThreeNamespaces(): seq<NamespaceDecl> {
    var head, two := ThreeHeadings(), Heading("a") + Heading("v");
    [NamespaceDecl(|Heading("a")| - 1, |head + BODY| + 4), NamespaceDecl(|two| - 1, |head + BODY| + 2),
     NamespaceDecl(|head| - 1, |head + BODY|)]
  }

  const THREE_ENDS := [CLOSE, LINE, CLOSE, LINE, CLOSE]

  lemma ThreeHeadingsOpen(a: Scope, v: Scope, b: Scope)
    requires a == Named("a") && v == Named("v") && b == Named("b")
    ensures After([], ThreeHeadings()) == [a, v, b] == After([a, v, b], BODY)
  {
    hide After, Heading;
    HeadingOpens([], "a");
    HeadingOpens([a], "v");
    HeadingOpens([a, v], "b");
    assert [] + [a] == [a] && [a] + [v] == [a, v] && [a, v] + [b] == [a, v, b];
    AfterConcatenation([], Heading("a") + Heading("v"), Heading("b"));
    AfterConcatenation([], Heading("a"), Heading("v"));
    AfterPlain([a, v, b], " X ");
  }

  lemma ThreeBraces()
    ensures var head, nest := ThreeHeadings(), ThreeNamespaces();
      && |nest| == 3 && nest[2].open == |head| - 1
      && (forall n :: 0 <= n < 3 ==> nest[n].open < |head| && head[nest[n].open].c == '{')
      && nest[0].close == |head + BODY| + 4 && nest[1].close == |head + BODY| + 2 && nest[2].close == |head + BODY|
  {
    var a, v := Heading("a"), Heading("v");
    assert ThreeHeadings()[|a| - 1] == a[|a| - 1] && ThreeHeadings()[|a + v| - 1] == v[|v| - 1];
  }

  lemma ThreeNamespacesNested()
    ensures Nested(ThreeHeadings() + BODY + THREE_ENDS, ThreeNamespaces(), ["a", "v", "b"])
    ensures HasCode(ThreeHeadings() + BODY + THREE_ENDS, ThreeNamespaces()[2])
  {
    hide After, Nested, ThreeHeadings, ThreeNamespaces;
    var head, nest, path := ThreeHeadings(), ThreeNamespaces(), ["a", "v", "b"];
    var a, v, b := Named("a"), Named("v"), Named("b");
    ThreeBraces();
    ThreeHeadingsOpen(a, v, b);
    ThreeEnd(a, v, b);
    assert Spaces(path) == [a, v, b] && Spaces(["a"]) == [a] && Spaces(["a", "v"]) == [a, v];
    assert path[..1] == ["a"] && path[..2] == ["a", "v"] && path[..3] == path;
    hide Spaces;
    assert Enclosed(nest, 0) == 1 && Enclosed(nest, 1) == 2 && Enclosed(nest, 2) == 3;
    NestedBy(head, BODY, THREE_ENDS, nest, path);
  }

  lemma ThreeEnd(a: Scope, v: Scope, b: Scope)
    ensures After([a, v, b], THREE_ENDS[..0]) == [a, v, b]
    ensures After([a, v, b], THREE_ENDS[..2]) == [a, v] && After([a, v, b], THREE_ENDS[..4]) == [a]
  {
    var stacks := [[a, v, b], [a, v], [a, v], [a], [a], []];
    AfterEach(THREE_ENDS, stacks, 0);
    AfterEach(THREE_ENDS, stacks, 2);
    AfterEach(THREE_ENDS, stacks, 4);
  }

  /** The code of `a::b`, in `a::v::b` with an inline `v`, moved to `x`, ends up in `a::v::b::x`. */
  lemma InlineBetween()
    ensures var text, nest := ThreeHeadings() + BODY + THREE_ENDS, ThreeNamespaces();
      var chain := [Namespace("b"), Namespace("v", isInline := true), Namespace("a")];
      var full, old_, new_ := ["a", "v", "b"], ["a", "b"], ["x"];
      && Matches(chain, old_) && Names(chain) == full && Nested(text, nest, full) && HasCode(text, nest[2])
      && NewPlace(text, nest, full, old_, new_) == Spaces(["a", "v", "b", "x"])
  {
    hide ThreeHeadings, After, Names, Matches, NextLine, Nested, NewPlace, HasCode, Spaces;
    var text, nest := ThreeHeadings() + BODY + THREE_ENDS, ThreeNamespaces();
    var full, old_, new_ := ["a", "v", "b"], ["a", "b"], ["x"];
    MatchesSkipping("a", "v", "b");
    ThreeNamespacesNested();
    assert CommonPrefix(old_, new_) == 0 && old_[0..] == old_ && new_[0..] == new_;
    assert full[1..][0] == "v";
    assert !EndsWith(full, old_);
    TargetUnfolds(text, nest, full, old_, new_);
    assert text[|ThreeHeadings()|] == BODY[0];
    NewPlaceIsOpened(text, nest, full, old_, new_);
    assert full + new_ == ["a", "v", "b", "x"];
    SpacesOfParts(full, new_);
  }

  lemma MatchesSkipping(a: string, v: string, b: string)
    requires IsComponent(a) && IsComponent(v) && IsComponent(b) && a != v
    ensures var chain := [Namespace(b), Namespace(v, isInline := true), Namespace(a)];
      Matches(chain, [a, b]) && Names(chain) == [a, v, b]
  {
    var chain := [Namespace(b), Namespace(v, isInline := true), Namespace(a)];
    assert chain[1..] == [Namespace(v, isInline := true), Namespace(a)];
    assert chain[1..][1..] == [Namespace(a)] && chain[1..][1..][1..] == [];
    assert [a, b][..1] == [a] && [a][..0] == [];
    assert Names(chain[1..][1..][1..]) == [] && Names(chain[1..][1..]) == [a] && Names(chain[1..]) == [a, v];
    assert Reads(chain[1..][1..], [a]) && Reads(chain[1..], [a]);
  }
}
