/** The text around moved code, read character by character. */
module NamespaceReader {

  import opened Wrappers
  import opened NamespaceChange

  /** The characters alone. */
  function Letters(text: Text): string {
    seq(|text|, n requires 0 <= n < |text| => text[n].c)
  }

  lemma LettersOfParts(a: Text, b: Text)
    ensures Letters(a + b) == Letters(a) + Letters(b)
  {
  }

  lemma LettersOfPlain(s: string)
    ensures Letters(Plain(s)) == s
  {
  }

  // ------------------------------------------------------------------ what is printed

  /** The lines that open and close a namespace, letter by letter. */
  lemma OpenLineExactly(name: string)
    ensures Letters(OpenLine(name)) == "namespace " + name + " {\n"
  {
    var middle := "amespace " + name + " ";
    LettersOfPlain(middle);
    LettersOfPlain("\n");
    assert Letters(OpenLine(name)) == "n" + middle + "{" + "\n";
  }

  lemma CloseLineExactly(name: string)
    ensures Letters(CloseLine(name)) == "} // namespace " + name + "\n"
  {
    var comment := "/ namespace " + name;
    LettersOfPlain(" ");
    LettersOfPlain(comment);
    assert Letters(CloseLine(name)) == "}" + " " + "/" + comment + "\n";
  }

  // ------------------------------------------------------------------ reading it

  predicate IsSpace(c: char) {
    c == ' ' || c == '\n'
  }

  predicate InName(c: char) {
    !IsSpace(c) && c != '{' && c != '}' && c != '/' && c != ':'
  }

  predicate IsName(name: string) {
    name != "" && forall n :: 0 <= n < |name| ==> InName(name[n])
  }

  function SkipSpace(s: string): (r: string)
    ensures |r| <= |s|
  {
    if s != "" && IsSpace(s[0]) then SkipSpace(s[1..]) else s
  }

  function NameLength(s: string): (n: nat)
    ensures n <= |s|
  {
    if s != "" && InName(s[0]) then 1 + NameLength(s[1..]) else 0
  }

  function SkipLine(s: string): (r: string)
    ensures |r| <= |s|
  {
    if s == "" || s[0] == '\n' then s else SkipLine(s[1..])
  }

  /** The keyword, a name and a brace: the name, and what is behind the brace. */
  function ReadHeading(s: string): (r: Option<(string, string)>)
    ensures r.Some? ==> |r.value.1| < |s|
  {
    if "namespace" <= s then
      var rest := SkipSpace(s[9..]);
      var n := NameLength(rest);
      var behind := SkipSpace(rest[n..]);
      if n > 0 && behind != "" && behind[0] == '{' then Some((rest[..n], behind[1..])) else None
    else
      None
  }

  /** Reads headings, closing braces, comments and white space, with the namespaces that are open. */
  function Read(open: seq<string>, s: string): Option<seq<string>>
    decreases |s|
  {
    if s == "" then Some(open)
    else if IsSpace(s[0]) then Read(open, s[1..])
    else if s[0] == '}' then (if open == [] then None else Read(open[..|open| - 1], s[1..]))
    else if "//" <= s then Read(open, SkipLine(s[2..]))
    else
      var heading := ReadHeading(s);
      if heading.None? then None else Read(open + [heading.value.0], heading.value.1)
  }

  lemma {:induction false} NameEnds(name: string, rest: string)
    requires (forall n :: 0 <= n < |name| ==> InName(name[n])) && (rest == "" || !InName(rest[0]))
    ensures NameLength(name + rest) == |name|
  {
    if name == "" {
      assert name + rest == rest;
    } else {
      assert (name + rest)[1..] == name[1..] + rest;
      NameEnds(name[1..], rest);
    }
  }

  lemma SpaceIsSkipped(s: string)
    requires s != "" && !IsSpace(s[0])
    ensures SkipSpace(" " + s) == s
  {
    assert (" " + s)[1..] == s;
  }

  lemma HeadingIsRead(name: string, rest: string)
    requires IsName(name)
    ensures ReadHeading("namespace " + name + " {\n" + rest) == Some((name, "\n" + rest))
  {
    var s, brace := "namespace " + name + " {\n" + rest, "{\n" + rest;
    var behind := " " + brace;
    assert s[..9] == "namespace" && s[9..] == " " + (name + behind);
    assert (name + behind)[0] == name[0];
    hide SkipSpace, NameLength;
    SpaceIsSkipped(name + behind);
    NameEnds(name, behind);
    assert (name + behind)[|name|..] == behind && (name + behind)[..|name|] == name;
    SpaceIsSkipped(brace);
    assert brace[1..] == "\n" + rest;
  }

  lemma OpenLineIsRead(open: seq<string>, name: string, rest: string)
    requires IsName(name)
    ensures Read(open, "namespace " + name + " {\n" + rest) == Read(open + [name], rest)
  {
    var s := "namespace " + name + " {\n" + rest;
    HeadingIsRead(name, rest);
    hide ReadHeading;
    assert s[0] == 'n';
    assert Read(open, s) == Read(open + [name], "\n" + rest);
    assert ("\n" + rest)[1..] == rest;
  }

  lemma {:induction false} LineEndIsFound(s: string, rest: string)
    requires forall n :: 0 <= n < |s| ==> s[n] != '\n'
    ensures SkipLine(s + "\n" + rest) == "\n" + rest
  {
    if s == "" {
      assert s + "\n" + rest == "\n" + rest;
    } else {
      assert (s + "\n" + rest)[1..] == s[1..] + "\n" + rest;
      LineEndIsFound(s[1..], rest);
    }
  }

  lemma BraceIsRead(open: seq<string>, rest: string)
    requires open != []
    ensures Read(open, "}" + rest) == Read(open[..|open| - 1], rest)
  {
    assert ("}" + rest)[1..] == rest;
  }

  lemma SpaceIsRead(open: seq<string>, space: string, rest: string)
    requires space == " " || space == "\n"
    ensures Read(open, space + rest) == Read(open, rest)
  {
    assert (space + rest)[1..] == rest;
  }

  lemma CommentIsRead(open: seq<string>, comment: string, rest: string)
    requires forall n :: 0 <= n < |comment| ==> comment[n] != '\n'
    ensures Read(open, "//" + (comment + "\n" + rest)) == Read(open, "\n" + rest)
  {
    hide SkipLine, ReadHeading;
    var s := "//" + (comment + "\n" + rest);
    assert s[2..] == comment + "\n" + rest;
    LineEndIsFound(comment, rest);
  }

  lemma CloseLineParts(name: string, rest: string)
    ensures "} // namespace " + name + "\n" + rest == "}" + (" " + ("//" + (" namespace " + name + "\n" + rest)))
  {
  }

  lemma CommentHasNoBreak(name: string)
    requires IsName(name)
    ensures forall n :: 0 <= n < |" namespace " + name| ==> (" namespace " + name)[n] != '\n'
  {
  }

  lemma CloseLineIsRead(open: seq<string>, name: string, rest: string)
    requires IsName(name) && open != []
    ensures Read(open, "} // namespace " + name + "\n" + rest) == Read(open[..|open| - 1], rest)
  {
    hide Read, IsName;
    var outer, comment := open[..|open| - 1], " namespace " + name;
    CloseLineParts(name, rest);
    CommentHasNoBreak(name);
    BraceIsRead(open, " " + ("//" + (comment + "\n" + rest)));
    SpaceIsRead(outer, " ", "//" + (comment + "\n" + rest));
    CommentIsRead(outer, comment, rest);
    SpaceIsRead(outer, "\n", rest);
  }

  /** The opening part of the wrapping is read as all the names, in order. */
  lemma {:induction false} OpeningsAreRead(open: seq<string>, names: seq<string>, rest: string)
    requires forall n :: 0 <= n < |names| ==> IsName(names[n])
    ensures Read(open, Letters(Openings(names)) + rest) == Read(open + names, rest)
    decreases |names|
  {
    hide Read, OpenLine, IsName;
    if names == [] {
      assert Letters(Openings(names)) + rest == rest && open + names == open;
    } else {
      var more := Letters(Openings(names[1..])) + rest;
      LettersOfParts(OpenLine(names[0]), Openings(names[1..]));
      OpenLineExactly(names[0]);
      assert Letters(Openings(names)) + rest == "namespace " + names[0] + " {\n" + more;
      OpenLineIsRead(open, names[0], more);
      OpeningsAreRead(open + [names[0]], names[1..], rest);
      assert open + [names[0]] + names[1..] == open + names;
    }
  }

  /** The closing part is read as leaving just as many, the innermost first. */
  lemma {:induction false} ClosingsAreRead(open: seq<string>, names: seq<string>, rest: string)
    requires forall n :: 0 <= n < |names| ==> IsName(names[n])
    ensures Read(open + names, Letters(Closings(names)) + rest) == Read(open, rest)
    decreases |names|
  {
    hide Read, CloseLine, IsName;
    if names == [] {
      assert Letters(Closings(names)) + rest == rest && open + names == open;
    } else {
      var last := "} // namespace " + names[0] + "\n" + rest;
      LettersOfParts(Closings(names[1..]), CloseLine(names[0]));
      CloseLineExactly(names[0]);
      assert Letters(Closings(names)) + rest == Letters(Closings(names[1..])) + last;
      assert open + names == open + [names[0]] + names[1..];
      ClosingsAreRead(open + [names[0]], names[1..], last);
      CloseLineIsRead(open + [names[0]], names[0], rest);
      assert (open + [names[0]])[..|open|] == open;
    }
  }

  /** So what is read of the wrapping is what its characters are said to enter and to leave. */
  lemma WrappingIsRead(names: seq<string>, open: seq<string>)
    requires forall n :: 0 <= n < |names| ==> IsName(names[n])
    ensures Read(open, Letters(Openings(names))) == Some(open + names)
    ensures Read(open + names, Letters(Closings(names))) == Some(open)
    ensures After(Spaces(open), Openings(names)) == Spaces(open + names)
    ensures After(Spaces(open + names), Closings(names)) == Spaces(open)
  {
    OpeningsAreRead(open, names, "");
    ClosingsAreRead(open, names, "");
    assert Letters(Openings(names)) + "" == Letters(Openings(names));
    assert Letters(Closings(names)) + "" == Letters(Closings(names));
    hide Read, After;
    WrapOpensAndCloses(names, Spaces(open));
    SpacesOfParts(open, names);
  }

  /** The outermost name is opened first and closed last. */
  lemma PartsExactly(name: string, names: seq<string>)
    ensures Openings([]) == [] == Closings([])
    ensures Letters(Openings([name] + names)) == "namespace " + name + " {\n" + Letters(Openings(names))
    ensures Letters(Closings([name] + names)) == Letters(Closings(names)) + ("} // namespace " + name + "\n")
  {
    hide OpenLine, CloseLine;
    assert ([name] + names)[1..] == names;
    LettersOfParts(OpenLine(name), Openings(names));
    LettersOfParts(Closings(names), CloseLine(name));
    OpenLineExactly(name);
    CloseLineExactly(name);
  }

  /** The code stands between the two parts as it was, but for a line break that it may lack. */
  lemma WrappedExactly(names: seq<string>, code: Text)
    requires code != []
    ensures Letters(Wrapped(names, code)) ==
      Letters(Openings(names)) +
      (Letters(code) + (if Letters(code)[|code| - 1] == '\n' then "" else "\n")) +
      Letters(Closings(names))
  {
    hide Openings, Closings, Wrap;
    WrapSurrounds(names, Ended(code));
    LettersOfParts(Openings(names) + Ended(code), Closings(names));
    LettersOfParts(Openings(names), Ended(code));
    LettersOfParts(code, Plain("\n"));
    LettersOfPlain("\n");
    assert Letters(code) + "" == Letters(code);
  }

  /** Taking the wrapped code out of the new file gives the old one without the code, and nothing else. */
  lemma NothingElseMoves(text: Text, inner: NamespaceDecl, p: nat, names: seq<string>)
    requires HasCode(text, inner) && IsPlace(text, inner, p)
    ensures var r, w := Moved(text, inner, p, names), Wrapped(names, text[inner.open + 2..inner.close]);
      var at := if p <= inner.close then p else p - (inner.close - (inner.open + 2));
      && at + |w| <= |r| && r[at..at + |w|] == w
      && r[..at] + r[at + |w|..] == text[..inner.open + 2] + text[inner.close..]
  {
    hide Wrapped;
    var r, w := Moved(text, inner, p, names), Wrapped(names, text[inner.open + 2..inner.close]);
    var front := Before(text, inner, p);
    var back := text[if p == Start(inner) then inner.close else p..];
    assert r == front + w + back;
    assert r[..|front|] == front && r[|front|..|front| + |w|] == w && r[|front| + |w|..] == back;
    assert front + back == text[..inner.open + 2] + text[inner.close..];
  }
}
