/**
  Comma-separated lists of globs that switch checks on and off.

  The program turns each glob into a regular expression and lets the last glob that matches a name
  decide.  Both steps are compared with a direct reading of the list.
  */
module CheckGlobs {

  import opened Wrappers

  // ------------------------------------------------------------------ globs and regular expressions

  /** The characters that the escaping knows as special. */
  const META_CHARS := "()^$|*+?.[]\\{}"

  function Escaped(glob: string): string {
    if glob == "" then
      ""
    else if glob[0] == '*' then
      ".*" + Escaped(glob[1..])
    else if glob[0] in META_CHARS then
      ['\\', glob[0]] + Escaped(glob[1..])
    else
      [glob[0]] + Escaped(glob[1..])
  }

  function RegexText(glob: string): string {
    "^" + Escaped(glob) + "$"
  }

  /** A `*` stands for any characters; every other character stands for itself. */
  predicate GlobMatches(glob: string, s: string)
    decreases |glob|, |s|
  {
    if glob == "" then
      s == ""
    else if glob[0] == '*' then
      GlobMatches(glob[1..], s) || (s != "" && GlobMatches(glob, s[1..]))
    else
      s != "" && s[0] == glob[0] && GlobMatches(glob[1..], s[1..])
  }

  /** The extended regular expressions needed here: a sequence of single characters, some repeated. */
  datatype Atom = Single(c: char, repeated: bool) | Any(repeated: bool)

  /** The characters that are special in extended regular expressions (POSIX.1-2008, section 9.4.3). */
  const SPECIAL_CHARS := ".[\\()*+?{|^$"

  /** Reads what stands between the anchors; a special character on its own is not understood. */
  function ParseAtoms(text: string): Option<seq<Atom>>
    decreases |text|, 0
  {
    if text == "" then
      Some([])
    else if text[0] == '\\' then
      if |text| < 2 then None else Follow(Single(text[1], false), text[2..])
    else if text[0] == '.' then
      Follow(Any(false), text[1..])
    else if text[0] in SPECIAL_CHARS then
      None
    else
      Follow(Single(text[0], false), text[1..])
  }

  /** A star repeats the atom before it. */
  function Follow(atom: Atom, text: string): Option<seq<Atom>>
    decreases |text|, 1
  {
    if text != "" && text[0] == '*'
    then Prepend(atom.(repeated := true), ParseAtoms(text[1..]))
    else Prepend(atom, ParseAtoms(text))
  }

  function Prepend(atom: Atom, rest: Option<seq<Atom>>): Option<seq<Atom>> {
    if rest.Some? then Some([atom] + rest.value) else None
  }

  function ParseRegex(text: string): Option<seq<Atom>> {
    if |text| >= 2 && text[0] == '^' && text[|text| - 1] == '$'
    then ParseAtoms(text[1..|text| - 1])
    else None
  }

  predicate Accepts(atom: Atom, c: char) {
    atom.Any? || atom.c == c
  }

  /** The strings that a regular expression describes. */
  predicate Describes(atoms: seq<Atom>, s: string) {
    if atoms == [] then
      s == ""
    else if atoms[0].repeated then
      exists n: nat :: n <= |s| && (forall i :: 0 <= i < n ==> Accepts(atoms[0], s[i])) && Describes(atoms[1..], s[n..])
    else
      s != "" && Accepts(atoms[0], s[0]) && Describes(atoms[1..], s[1..])
  }

  function AtomsOf(glob: string): seq<Atom> {
    if glob == "" then []
    else [if glob[0] == '*' then Any(true) else Single(glob[0], false)] + AtomsOf(glob[1..])
  }

  /** Whatever is special is escaped. */
  lemma SpecialIsEscaped(c: char)
    ensures c in SPECIAL_CHARS ==> c in META_CHARS
  {
  }

  /** No glob's escaped text starts with a star, so a star never repeats an escaped character. */
  lemma {:induction false} EscapedParses(glob: string)
    ensures Escaped(glob) != "" ==> Escaped(glob)[0] != '*'
    ensures ParseAtoms(Escaped(glob)) == Some(AtomsOf(glob))
  {
    if glob != "" {
      EscapedParses(glob[1..]);
      var text, rest := Escaped(glob), Escaped(glob[1..]);
      if glob[0] == '*' {
        assert text[1..] == ['*'] + rest && text[1..][1..] == rest;
      } else if glob[0] in META_CHARS {
        assert text[2..] == rest;
      } else {
        SpecialIsEscaped(glob[0]);
        assert '\\' in SPECIAL_CHARS && '.' in SPECIAL_CHARS && '*' in SPECIAL_CHARS;
        assert text[1..] == rest;
      }
    }
  }

  lemma StarUnfolds(atoms: seq<Atom>, s: string)
    requires atoms != [] && atoms[0] == Any(true)
    ensures Describes(atoms, s) <==> Describes(atoms[1..], s) || (s != "" && Describes(atoms, s[1..]))
  {
    assert s[0..] == s;
    if s != "" && Describes(atoms, s[1..]) {
      var n: nat :| n <= |s| - 1 && (forall i :: 0 <= i < n ==> Accepts(atoms[0], s[1..][i])) &&
        Describes(atoms[1..], s[1..][n..]);
      assert s[1..][n..] == s[n + 1..];
      assert Describes(atoms, s);
    }
    if Describes(atoms, s) && !Describes(atoms[1..], s) {
      var n: nat :| n <= |s| && Describes(atoms[1..], s[n..]);
      assert n > 0 && s[1..][n - 1..] == s[n..];
    }
  }

  lemma {:induction false} AtomsDescribeGlob(glob: string, s: string)
    ensures Describes(AtomsOf(glob), s) <==> GlobMatches(glob, s)
    decreases |glob|, |s|
  {
    if glob != "" {
      var atoms := AtomsOf(glob);
      assert atoms[1..] == AtomsOf(glob[1..]);
      if glob[0] != '*' {
        if s != "" {
          AtomsDescribeGlob(glob[1..], s[1..]);
        }
      } else {
        StarUnfolds(atoms, s);
        AtomsDescribeGlob(glob[1..], s);
        if s != "" {
          AtomsDescribeGlob(glob, s[1..]);
        }
      }
    }
  }

  /** The escaping preserves matching: the regular expression describes what the glob matches. */
  lemma EscapingPreservesMatching(glob: string, s: string)
    ensures ParseRegex(RegexText(glob)) == Some(AtomsOf(glob))
    ensures Describes(AtomsOf(glob), s) <==> GlobMatches(glob, s)
  {
    EscapedParses(glob);
    AtomsDescribeGlob(glob, s);
    assert RegexText(glob)[1..|RegexText(glob)| - 1] == Escaped(glob);
  }

  /** A glob without a star matches itself alone. */
  lemma {:induction false} LiteralMatchesItself(glob: string, s: string)
    requires '*' !in glob
    ensures GlobMatches(glob, s) <==> s == glob
  {
    if glob != "" && s != "" {
      LiteralMatchesItself(glob[1..], s[1..]);
      assert glob == [glob[0]] + glob[1..] && s == [s[0]] + s[1..];
    }
  }

  /** Two globs after each other match two parts of the name; and a star matches everything. */
  lemma {:induction false} ConcatenationMatches(a: string, b: string, s: string)
    ensures GlobMatches(a + b, s) <==>
      exists n :: 0 <= n <= |s| && GlobMatches(a, s[..n]) && GlobMatches(b, s[n..])
    decreases |a|, |s|
  {
    if a == "" {
      assert a + b == b && s[..0] == "" && s[0..] == s;
    } else {
      assert (a + b)[1..] == a[1..] + b;
      if a[0] != '*' {
        if s != "" {
          ConcatenationMatches(a[1..], b, s[1..]);
          PartsBehind(a, b, s);
        }
      } else {
        ConcatenationMatches(a[1..], b, s);
        if s != "" {
          ConcatenationMatches(a, b, s[1..]);
          PartsBehind(a, b, s);
        }
        StarParts(a, b, s);
      }
    }
  }

  lemma PartsBehind(a: string, b: string, s: string)
    requires s != ""
    ensures forall n :: 0 < n <= |s| ==> s[..n] != "" && s[..n][0] == s[0]
    ensures forall n :: 0 < n <= |s| ==> s[..n][1..] == s[1..][..n - 1] && s[n..] == s[1..][n - 1..]
  {
  }

  lemma StarParts(a: string, b: string, s: string)
    requires a != "" && a[0] == '*'
    ensures forall n :: 0 <= n <= |s| ==>
      (GlobMatches(a, s[..n]) <==>
        GlobMatches(a[1..], s[..n]) || (n > 0 && GlobMatches(a, s[1..][..n - 1])))
  {
    if s != "" {
      PartsBehind(a, b, s);
    }
  }

  lemma {:induction false} StarMatchesAll(s: string)
    ensures GlobMatches("*", s)
  {
    if s != "" {
      StarMatchesAll(s[1..]);
    }
  }

  /** The loop that builds the text of the regular expression. */
  method BuildRegex(glob: string) returns (text: string)
    ensures text == RegexText(glob)
  {
    text := "^";
    for n := 0 to |glob|
      invariant text + Escaped(glob[n..]) == "^" + Escaped(glob)
    {
      var c := glob[n];
      assert glob[n..][0] == c && glob[n..][1..] == glob[n + 1..];
      if c == '*' {
        text := text + ".";
      } else if c in META_CHARS {
        text := text + "\\";
      }
      text := text + [c];
    }
    text := text + "$";
  }

  // ------------------------------------------------------------------ lists of globs

  predicate IsSpace(c: char) {
    c in {' ', '\t', '\n', '\U{0B}', '\U{0C}', '\r'}
  }

  predicate Blank(s: string) {
    forall c <- s :: IsSpace(c)
  }

  function TrimLeft(s: string): string {
    if s != "" && IsSpace(s[0]) then TrimLeft(s[1..]) else s
  }

  function TrimRight(s: string): string {
    if s != "" && IsSpace(s[|s| - 1]) then TrimRight(s[..|s| - 1]) else s
  }

  function Trim(s: string): string {
    TrimRight(TrimLeft(s))
  }

  function FindComma(s: string): (n: nat)
    ensures n <= |s| && (n < |s| ==> s[n] == ',') && forall i :: 0 <= i < n ==> s[i] != ','
  {
    if s == "" || s[0] == ',' then 0 else 1 + FindComma(s[1..])
  }

  /** The sign before a glob, and what follows it. */
  function ConsumeNegativeIndicator(list: string): (r: (bool, string)) {
    if list != "" && list[0] == '-' then (true, list[1..]) else (false, list)
  }

  /** The first glob of a list, and what remains when as many characters and one more are removed. */
  function ConsumeGlob(list: string): (r: (string, string)) {
    var glob := Trim(list[..FindComma(list)]);
    (glob, if |glob| + 1 <= |list| then list[|glob| + 1..] else "")
  }

  datatype GlobList = GlobList(positive: bool, regex: string, next: Option<GlobList>)

  function Parse(list: string): GlobList
    decreases |list|
  {
    var (negative, list') := ConsumeNegativeIndicator(list);
    var (glob, rest) := ConsumeGlob(list');
    GlobList(!negative, RegexText(glob), if rest == "" then None else Some(Parse(rest)))
  }

  predicate RegexMatches(text: string, s: string) {
    var atoms := ParseRegex(text);
    atoms.Some? && Describes(atoms.value, s)
  }

  predicate Contains(globs: GlobList, s: string, contains: bool) {
    var verdict := if RegexMatches(globs.regex, s) then globs.positive else contains;
    if globs.next.Some? then Contains(globs.next.value, s, verdict) else verdict
  }

  // ------------------------------------------------------------------ what a list says

  /** A glob that switches the names it matches on or off. */
  datatype Entry = Entry(positive: bool, glob: string)

  /** The last entry that matches a name decides. */
  function Verdict(entries: seq<Entry>, s: string): Option<bool> {
    if entries == [] then
      None
    else if GlobMatches(entries[|entries| - 1].glob, s) then
      Some(entries[|entries| - 1].positive)
    else
      Verdict(entries[..|entries| - 1], s)
  }

  function Default(verdict: Option<bool>, contains: bool): bool {
    if verdict.Some? then verdict.value else contains
  }

  /** The entries that the program reads, without empty globs, which match no name. */
  function Read(list: string): seq<Entry>
    decreases |list|
  {
    var (negative, list') := ConsumeNegativeIndicator(list);
    var (glob, rest) := ConsumeGlob(list');
    Listed(!negative, glob) + if rest == "" then [] else Read(rest)
  }

  function Listed(positive: bool, glob: string): seq<Entry> {
    if glob == "" then [] else [Entry(positive, glob)]
  }

  /** What stands behind the first comma. */
  function Rest(list: string): string {
    var n := FindComma(list);
    if n < |list| then list[n + 1..] else ""
  }

  /** The entry that an item between commas is meant to be: white space around it does not matter. */
  function Meant(item: string): seq<Entry> {
    var (negative, glob) := ConsumeNegativeIndicator(Trim(item));
    Listed(!negative, Trim(glob))
  }

  /** The entries that a list is meant to hold. */
  function Intended(list: string): seq<Entry>
    decreases |list|
  {
    if list == "" then [] else Meant(list[..FindComma(list)]) + Intended(Rest(list))
  }

  lemma VerdictOfConcatenation(a: seq<Entry>, b: seq<Entry>, s: string)
    ensures Verdict(a + b, s) == if Verdict(b, s).Some? then Verdict(b, s) else Verdict(a, s)
    decreases |b|
  {
    if b == [] {
      assert a + b == a;
    } else {
      assert (a + b)[..|a + b| - 1] == a + b[..|b| - 1];
      VerdictOfConcatenation(a, b[..|b| - 1], s);
    }
  }

  /** No entry that matches means no verdict, and otherwise the last one that does gives it. */
  lemma {:induction false} VerdictExactly(entries: seq<Entry>, s: string)
    ensures Verdict(entries, s) == None <==>
      forall n :: 0 <= n < |entries| ==> !GlobMatches(entries[n].glob, s)
    ensures Verdict(entries, s).Some? ==>
      exists n :: 0 <= n < |entries| && GlobMatches(entries[n].glob, s) &&
        Verdict(entries, s).value == entries[n].positive &&
        forall m :: n < m < |entries| ==> !GlobMatches(entries[m].glob, s)
  {
    if entries != [] {
      VerdictExactly(entries[..|entries| - 1], s);
    }
  }

  /** The parsed list gives the verdict of the entries it was read from. */
  lemma {:induction false} ParsedListDecides(list: string, s: string, contains: bool)
    requires s != ""
    ensures Contains(Parse(list), s, contains) == Default(Verdict(Read(list), s), contains)
    decreases |list|
  {
    hide Verdict;
    var (negative, list') := ConsumeNegativeIndicator(list);
    var (glob, rest) := ConsumeGlob(list');
    EscapingPreservesMatching(glob, s);
    var entry := Listed(!negative, glob);
    OneEntryDecides(!negative, glob, s, contains);
    if rest == "" {
      assert entry + [] == entry;
    } else {
      ParsedListDecides(rest, s, if GlobMatches(glob, s) then !negative else contains);
      VerdictOfConcatenation(entry, Read(rest), s);
    }
  }

  lemma OneEntryDecides(positive: bool, glob: string, s: string, contains: bool)
    requires s != ""
    ensures (if GlobMatches(glob, s) then positive else contains) ==
      Default(Verdict(Listed(positive, glob), s), contains)
  {
    var entry := Listed(positive, glob);
    assert glob != "" ==> entry[..0] == [];
  }

  // ------------------------------------------------------------------ when the reading is the intended one

  /** What of an item the program takes for the beginning of the next one. */
  function Leftover(body: string): string {
    var glob := Trim(body);
    if |glob| < |body| then body[|glob| + 1..] else ""
  }

  /**
    White space in front of a glob hides a minus sign behind it, and makes the program read the end
    of the glob again.
    */
  predicate Faithful(item: string) {
    var (negative, body) := ConsumeNegativeIndicator(item);
    var glob, left := Trim(body), Leftover(body);
    glob == "" || ((negative || glob[0] != '-') && (Blank(left) || (left[0] == '-' && Blank(left[1..]))))
  }

  predicate AllFaithful(list: string)
    decreases |list|
  {
    list == "" || (Faithful(list[..FindComma(list)]) && AllFaithful(Rest(list)))
  }

  lemma {:induction false} TrimLeftFacts(s: string)
    ensures |TrimLeft(s)| <= |s| && TrimLeft(s) == s[|s| - |TrimLeft(s)|..]
    ensures Blank(s[..|s| - |TrimLeft(s)|])
    ensures TrimLeft(s) != "" ==> !IsSpace(TrimLeft(s)[0])
  {
    if s != "" && IsSpace(s[0]) {
      TrimLeftFacts(s[1..]);
    }
  }

  lemma {:induction false} TrimRightFacts(s: string)
    ensures |TrimRight(s)| <= |s| && TrimRight(s) == s[..|TrimRight(s)|]
    ensures Blank(s[|TrimRight(s)|..])
    ensures TrimRight(s) != "" ==> !IsSpace(TrimRight(s)[|TrimRight(s)| - 1])
  {
    if s != "" && IsSpace(s[|s| - 1]) {
      TrimRightFacts(s[..|s| - 1]);
      assert s[|TrimRight(s)|..] == s[..|s| - 1][|TrimRight(s)|..] + [s[|s| - 1]];
    }
  }

  /** Trimming splits a string into white space, a core that does not start or end with it, and white space. */
  lemma TrimFacts(s: string) returns (k: nat)
    ensures k + |Trim(s)| <= |s| && Trim(s) == s[k..k + |Trim(s)|]
    ensures Blank(s[..k]) && Blank(s[k + |Trim(s)|..])
    ensures Trim(s) != "" ==> !IsSpace(Trim(s)[0]) && !IsSpace(Trim(s)[|Trim(s)| - 1])
    ensures Trim(s) == "" <==> Blank(s)
  {
    TrimLeftFacts(s);
    TrimRightFacts(TrimLeft(s));
    k := |s| - |TrimLeft(s)|;
    assert s[k..][..|Trim(s)|] == s[k..k + |Trim(s)|];
    assert s[k..][|Trim(s)|..] == s[k + |Trim(s)|..];
    assert s == s[..k] + Trim(s) + s[k + |Trim(s)|..];
  }

  /** The core is determined by the split. */
  lemma {:induction false} TrimUnique(a: string, core: string, b: string)
    requires Blank(a) && Blank(b) && (core != "" ==> !IsSpace(core[0]) && !IsSpace(core[|core| - 1]))
    ensures Trim(a + core + b) == core
    decreases |a| + |b|, |b|
  {
    var s := a + core + b;
    if a != "" {
      assert s[1..] == a[1..] + core + b;
      TrimUnique(a[1..], core, b);
      assert TrimLeft(s) == TrimLeft(s[1..]);
    } else if core == "" {
      if b != "" {
        assert s == b + core + a;
        TrimUnique(b, core, a);
      }
    } else {
      assert TrimLeft(s) == s;
      if b != "" {
        assert s[..|s| - 1] == a + core + b[..|b| - 1];
        TrimUnique(a, core, b[..|b| - 1]);
        assert TrimLeft(s[..|s| - 1]) == s[..|s| - 1];
      }
    }
  }

  lemma TrimTwice(s: string)
    ensures Trim(Trim(s)) == Trim(s)
  {
    var k := TrimFacts(s);
    TrimUnique("", Trim(s), "");
    assert "" + Trim(s) + "" == Trim(s);
  }

  /** A leading minus survives trimming, and what follows it is trimmed like the item. */
  lemma TrimBehindMinus(body: string)
    ensures Trim(['-'] + body) != "" && Trim(['-'] + body)[0] == '-'
    ensures Trim(Trim(['-'] + body)[1..]) == Trim(body)
  {
    var k := TrimFacts(body);
    var core := ['-'] + body[..k + |Trim(body)|];
    if Trim(body) == "" {
      TrimUnique("", "-", body);
      assert "" + "-" + body == ['-'] + body;
      assert Trim(['-'] + body)[1..] == "";
    } else {
      TrimUnique("", core, body[k + |Trim(body)|..]);
      assert "" + core + body[k + |Trim(body)|..] == ['-'] + body;
      TrimUnique(body[..k], Trim(body), "");
      assert core[1..] == body[..k] + Trim(body) + "";
    }
  }

  predicate Core(s: string) {
    s != "" ==> !IsSpace(s[0]) && !IsSpace(s[|s| - 1])
  }

  /**
    An item is meant to switch a glob off if a minus sign is the first thing in it but for white space,
    and to switch it on otherwise; without a glob it means nothing.
    */
  lemma MeantExactly(before: string, between: string, glob: string, after: string)
    requires Blank(before) && Blank(between) && Blank(after) && Core(glob)
    ensures Meant(before + "-" + between + glob + after) == if glob == "" then [] else [Entry(false, glob)]
    ensures glob == "" ==> Meant(before + glob + after) == []
    ensures glob != "" && glob[0] != '-' ==> Meant(before + glob + after) == [Entry(true, glob)]
  {
    TrimUnique(before, glob, after);
    TrimUnique("", glob, "");
    assert "" + glob + "" == glob;
    ExclusionIsTrimmed(before, between, glob, after);
  }

  lemma ExclusionIsTrimmed(before: string, between: string, glob: string, after: string)
    requires Blank(before) && Blank(between) && Blank(after) && Core(glob)
    ensures var item := Trim(before + "-" + between + glob + after);
      item != "" && item[0] == '-' && Trim(item[1..]) == glob
  {
    var item := before + "-" + between + glob + after;
    if glob == "" {
      TrimUnique(before, "-", between + after);
      assert item == before + "-" + (between + after);
      assert "-"[1..] == "";
    } else {
      var core := "-" + between + glob;
      TrimUnique(before, core, after);
      assert item == before + core + after;
      TrimUnique(between, glob, "");
      assert core[1..] == between + glob + "";
    }
  }

  /** What an item is meant to be, and what the program reads of it first. */
  lemma MeantAndRead(item: string)
    ensures var (negative, body) := ConsumeNegativeIndicator(item);
      var glob := Trim(body);
      if glob == "" then Meant(item) == []
      else if negative || glob[0] != '-' then Meant(item) == [Entry(!negative, glob)]
      else Meant(item) == [] || (|Meant(item)| == 1 && Meant(item)[0] != Entry(true, glob))
  {
    var (negative, body) := ConsumeNegativeIndicator(item);
    if negative {
      TrimBehindMinus(body);
      assert item == ['-'] + body;
    } else {
      TrimTwice(item);
    }
  }

  lemma CommaFirst(item: string, tail: string)
    requires ',' !in item && (tail == "" || tail[0] == ',')
    ensures FindComma(item + tail) == |item|
    ensures Rest(item + tail) == Rest(tail)
    ensures Rest(tail) == if tail == "" then "" else tail[1..]
  {
    assert forall i :: 0 <= i < |item| ==> (item + tail)[i] in item;
    assert tail != "" ==> (item + tail)[|item|] == ',';
    assert tail != "" ==> (item + tail)[|item| + 1..] == tail[1..];
  }

  lemma FirstItem(item: string, tail: string)
    requires ',' !in item && (tail == "" || tail[0] == ',')
    ensures Intended(item + tail) == Meant(item) + Intended(Rest(tail))
    ensures AllFaithful(item + tail) <==> Faithful(item) && AllFaithful(Rest(tail))
  {
    if item + tail == "" {
      assert Blank(item) && Trim(item) == "" && Meant(item) == [];
      assert Rest(tail) == "" && Intended("") == [];
    } else {
      CommaFirst(item, tail);
      assert (item + tail)[..|item|] == item;
    }
  }

  lemma EmptyItem()
    ensures Meant("") == [] && Faithful("")
  {
    assert Trim("") == "";
  }

  lemma BehindGlob(body: string, tail: string, n: nat)
    requires n <= |body|
    ensures (if n + 1 <= |body + tail| then (body + tail)[n + 1..] else "") ==
      if n < |body| then body[n + 1..] + tail else if tail == "" then "" else tail[1..]
  {
  }

  lemma ConsumedAt(list: string, n: nat)
    requires FindComma(list) == n
    ensures ConsumeGlob(list) ==
      var glob := Trim(list[..n]); (glob, if |glob| + 1 <= |list| then list[|glob| + 1..] else "")
  {
  }

  lemma ConsumesBody(body: string, tail: string)
    requires ',' !in body && (tail == "" || tail[0] == ',')
    ensures |Trim(body)| <= |body|
    ensures ConsumeGlob(body + tail) ==
      (Trim(body), if |Trim(body)| < |body| then Leftover(body) + tail else Rest(tail))
  {
    hide Trim, FindComma, Rest, Blank, ConsumeGlob, IsSpace;
    var k := TrimFacts(body);
    CommaFirst(body, tail);
    assert (body + tail)[..|body|] == body;
    ConsumedAt(body + tail, |body|);
    BehindGlob(body, tail, |Trim(body)|);
  }

  /** The program reads the first item, and goes on with its leftover. */
  lemma ReadsFirst(list: string, item: string, tail: string)
    requires list == item + tail && list != "" && ',' !in item && (tail == "" || tail[0] == ',')
    ensures var (negative, body) := ConsumeNegativeIndicator(item);
      var (negative', list') := ConsumeNegativeIndicator(list);
      && negative' == negative
      && list' == body + tail
      && ',' !in body
      && |Trim(body)| <= |body|
      && ConsumeGlob(list') == (Trim(body), if |Trim(body)| < |body| then Leftover(body) + tail else Rest(tail))
  {
    hide Trim, FindComma, Rest, Leftover, ConsumeGlob;
    var (negative, body) := ConsumeNegativeIndicator(item);
    assert forall c <- body :: c in item;
    assert ConsumeNegativeIndicator(list).1 == body + tail;
    ConsumesBody(body, tail);
  }

  /** The rest of the list as the program sees it starts with the leftover of the item. */
  lemma ReadsOn(list: string, item: string, tail: string)
    requires list == item + tail && list != "" && ',' !in item && (tail == "" || tail[0] == ',')
    ensures var (negative, body) := ConsumeNegativeIndicator(item);
      var rest := ConsumeGlob(ConsumeNegativeIndicator(list).1).1;
      && |rest| < |list|
      && Intended(rest) == Meant(Leftover(body)) + Intended(Rest(tail))
      && (AllFaithful(rest) <==> Faithful(Leftover(body)) && AllFaithful(Rest(tail)))
  {
    ReadsFirst(list, item, tail);
    var (negative, body) := ConsumeNegativeIndicator(item);
    var left := Leftover(body);
    EmptyItem();
    hide Trim, Intended, AllFaithful, Meant, Faithful, ConsumeGlob;
    if |Trim(body)| < |body| {
      assert forall c <- left :: c in body;
      FirstItem(left, tail);
    } else {
      assert [] + Intended(Rest(tail)) == Intended(Rest(tail));
    }
  }

  /** Both readings of a list, unfolded once. */
  lemma ReadUnfolds(list: string) returns (body: string, negative: bool, rest: string)
    requires list != ""
    ensures |rest| < |list| && |Rest(list)| < |list|
    ensures Read(list) == Listed(!negative, Trim(body)) + Read(rest)
    ensures Intended(rest) == Meant(Leftover(body)) + Intended(Rest(list))
    ensures AllFaithful(rest) <==> Faithful(Leftover(body)) && AllFaithful(Rest(list))
    ensures (negative, body) == ConsumeNegativeIndicator(list[..FindComma(list)])
  {
    var item, tail := list[..FindComma(list)], list[FindComma(list)..];
    assert list == item + tail;
    CommaFirst(item, tail);
    ReadsFirst(list, item, tail);
    ReadsOn(list, item, tail);
    negative, body := ConsumeNegativeIndicator(item).0, ConsumeNegativeIndicator(item).1;
    rest := ConsumeGlob(ConsumeNegativeIndicator(list).1).1;
    assert Read("") == [] by { EmptyItem(); assert Trim("") == ""; }
  }

  lemma {:induction false} ReadsNoLess(list: string)
    ensures |Read(list)| >= |Intended(list)|
    decreases |list|
  {
    if list != "" {
      var body, negative, rest := ReadUnfolds(list);
      ReadsNoLess(rest);
      MeantAndRead(list[..FindComma(list)]);
    }
  }

  /** A leftover counts for nothing and is read for nothing exactly if it is blank but for one minus. */
  lemma LeftoverMeansNothing(left: string)
    ensures Meant(left) == [] && Faithful(left) <==> Blank(left) || (left[0] == '-' && Blank(left[1..]))
  {
    MeantAndRead(left);
    var (negative, body) := ConsumeNegativeIndicator(left);
    var k := TrimFacts(body);
    var n := TrimFacts(left);
    assert left != "" && left[0] == '-' ==> !Blank(left);
  }

  /**
    The program reads exactly the entries that a list is meant to hold if and only if no white space
    in front of a glob hides a minus sign or makes the end of the glob be read again.
    */
  lemma {:induction false} ReadsWhatIsMeant(list: string)
    ensures Read(list) == Intended(list) <==> AllFaithful(list)
    decreases |list|
  {
    if list != "" {
      var item := list[..FindComma(list)];
      var body, negative, rest := ReadUnfolds(list);
      MeantAndRead(item);
      LeftoverMeansNothing(Leftover(body));
      ReadsWhatIsMeant(rest);
      ReadsNoLess(rest);
      var glob, read, meant := Trim(body), Read(rest), Intended(Rest(list));
      assert Trim(body) == "" ==> Blank(Leftover(body)) by {
        var k := TrimFacts(body);
      }
      hide Trim, Meant, Leftover, Read, Blank, FindComma, Rest;
      if glob == "" {
        assert [] + read == read && [] + meant == meant;
      } else if negative || glob[0] != '-' {
        SameHead(Meant(item), read, meant);
      } else if Meant(item) == [] {
        assert |[Entry(true, glob)] + read| > |[] + meant|;
      } else {
        assert ([Entry(true, glob)] + read)[0] != (Meant(item) + meant)[0];
      }
    }
  }

  lemma SameHead(head: seq<Entry>, a: seq<Entry>, b: seq<Entry>)
    ensures head + a == head + b <==> a == b
  {
    if head + a == head + b {
      assert a == (head + a)[|head|..] == (head + b)[|head|..] == b;
    }
  }

  /** The verdict that a list is meant to give: the last glob that matches the name, or no. */
  predicate Selects(list: string, s: string) {
    Default(Verdict(Intended(list), s), false)
  }

  lemma FilterSelects(list: string, s: string)
    requires s != "" && AllFaithful(list)
    ensures Contains(Parse(list), s, false) == Selects(list, s)
  {
    ParsedListDecides(list, s, false);
    ReadsWhatIsMeant(list);
  }

  lemma SpacedMinus()
    ensures Read(" -b") == [Entry(true, "-b")]
    ensures Intended(" -b") == [Entry(false, "b")]
  {
    var item := " -b";
    CommaFirst(item, "");
    assert item + "" == item && item[..3] == item && item[3..] == "";
    TrimUnique(" ", "-b", "");
    assert " " + "-b" + "" == item;
    assert Trim("b") == "b";
    assert ConsumeGlob(item) == ("-b", "");
    assert Meant(item) == [Entry(false, "b")];
    assert Intended("") == [];
  }

  /** White space before a minus sign turns an exclusion into an inclusion of another name. */
  lemma HiddenMinus()
    ensures Read("*, -b") == [Entry(true, "*"), Entry(true, "-b")]
    ensures Intended("*, -b") == [Entry(true, "*"), Entry(false, "b")]
    ensures Contains(Parse("*, -b"), "b", false) && !Selects("*, -b", "b")
  {
    hide Read, Intended, Parse, Contains, Trim, Meant, GlobMatches, Verdict;
    var list, second := "*, -b", " -b";
    SpacedMinus();
    StarFirst(second);
    assert list == "*," + second;
    ParsedListDecides(list, "b", false);
    LastOfTwo(Entry(true, "*"), Entry(true, "-b"));
    LastOfTwo(Entry(true, "*"), Entry(false, "b"));
  }

  lemma StarFirst(list: string)
    requires list != ""
    ensures Read("*," + list) == [Entry(true, "*")] + Read(list)
    ensures Intended("*," + list) == [Entry(true, "*")] + Intended(list)
  {
    var tail := "," + list;
    CommaFirst("*", tail);
    assert "*," + list == "*" + tail && tail[1..] == list;
    assert Trim("*") == "*" && Meant("*") == [Entry(true, "*")];
    FirstItem("*", tail);
    ReadsFirst("*," + list, "*", tail);
  }

  lemma LastOfTwo(a: Entry, b: Entry)
    requires a.glob == "*" && b.glob in {"-b", "b"}
    ensures Verdict([a, b], "b") == Some(if b.glob == "b" then b.positive else a.positive)
  {
    assert [a, b][..1] == [a];
    assert GlobMatches("*", "b") && GlobMatches("b", "b") && !GlobMatches("-b", "b");
  }
}
