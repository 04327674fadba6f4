/**
  Merging options from several sources.

  A later source overrides single values, appends to lists, and appends its check globs to the globs
  of the sources before it, so that it has the last word on every check that it mentions.
  */
module CheckOptions {

  import opened Wrappers
  import opened CheckGlobs

  datatype Options = Options(
    checks: Option<string>,
    warningsAsErrors: Option<string>,
    headerFilterRegex: Option<string>,
    systemHeaders: Option<bool>,
    analyzeTemporaryDtors: Option<bool>,
    user: Option<string>,
    extraArgs: Option<seq<string>>,
    extraArgsBefore: Option<seq<string>>,
    checkOptions: map<string, string>)
  {
    function MergeWith(other: Options): Options {
      Options(
        MergeLists(checks, other.checks),
        MergeLists(warningsAsErrors, other.warningsAsErrors),
        Override(headerFilterRegex, other.headerFilterRegex),
        Override(systemHeaders, other.systemHeaders),
        Override(analyzeTemporaryDtors, other.analyzeTemporaryDtors),
        Override(user, other.user),
        MergeVectors(extraArgs, other.extraArgs),
        MergeVectors(extraArgsBefore, other.extraArgsBefore),
        checkOptions + other.checkOptions)
    }
  }

  const UNSET := Options(None, None, None, None, None, None, None, None, map[])

  /** `mergeCommaSeparatedLists`: a comma is put in between unless the destination is empty. */
  function MergeLists(dest: Option<string>, src: Option<string>): Option<string> {
    if src.None? then dest
    else Some((if dest.Some? && dest.value != "" then dest.value + "," else "") + src.value)
  }

  function MergeVectors<T>(dest: Option<seq<T>>, src: Option<seq<T>>): Option<seq<T>> {
    if src.None? then dest
    else if dest.Some? then Some(dest.value + src.value)
    else src
  }

  function Override<T>(dest: Option<T>, src: Option<T>): Option<T> {
    if src.Some? then src else dest
  }

  function Merged(sources: seq<Options>): Options {
    if sources == [] then UNSET else Merged(sources[..|sources| - 1]).MergeWith(sources[|sources| - 1])
  }

  method GetOptions(sources: seq<Options>) returns (r: Options)
    ensures r == Merged(sources)
  {
    r := UNSET;
    for n := 0 to |sources|
      invariant r == Merged(sources[..n])
    {
      r := r.MergeWith(sources[n]);
      assert sources[..n + 1][..n] == sources[..n];
    }
    assert sources[..|sources|] == sources;
  }

  // ------------------------------------------------------------------ what wins

  /** The last of the values that is set, or none if none is. */
  ghost predicate LastSet<T(!new)>(values: seq<Option<T>>, r: Option<T>) {
    if r.None? then
      forall n :: 0 <= n < |values| ==> values[n].None?
    else
      exists n :: 0 <= n < |values| && values[n] == r && forall m :: n < m < |values| ==> values[m].None?
  }

  lemma LastSetOneMore<T(!new)>(values: seq<Option<T>>, value: Option<T>, r: Option<T>)
    requires LastSet(values, r)
    ensures LastSet(values + [value], Override(r, value))
  {
    var more := values + [value];
    assert more[|values|] == value && forall n :: 0 <= n < |values| ==> more[n] == values[n];
    if value.None? && r.Some? {
      var n :| 0 <= n < |values| && values[n] == r && forall m :: n < m < |values| ==> values[m].None?;
      assert more[n] == r;
    }
  }

  /** What each of the sources says of one field. */
  function Said<T>(sources: seq<Options>, field: Options -> Option<T>): (r: seq<Option<T>>)
    ensures |r| == |sources| && forall n :: 0 <= n < |r| ==> r[n] == field(sources[n])
  {
    seq(|sources|, n requires 0 <= n < |sources| => field(sources[n]))
  }

  lemma SaidBefore<T>(sources: seq<Options>, field: Options -> Option<T>)
    requires sources != []
    ensures Said(sources, field) == Said(sources[..|sources| - 1], field) + [field(sources[|sources| - 1])]
  {
  }

  /** A field that is overridden has the value of the last source that sets it. */
  lemma {:induction false} OverriddenField<T(!new)>(sources: seq<Options>, field: Options -> Option<T>)
    requires field(UNSET) == None
    requires forall a: Options, b: Options :: field(a.MergeWith(b)) == Override(field(a), field(b))
    ensures LastSet(Said(sources, field), field(Merged(sources)))
  {
    if sources != [] {
      var before, last := sources[..|sources| - 1], sources[|sources| - 1];
      OverriddenField(before, field);
      SaidBefore(sources, field);
      LastSetOneMore(Said(before, field), field(last), field(Merged(before)));
    }
  }

  /** Each single value is that of the last source that sets it. */
  lemma LastSourceDecides(sources: seq<Options>)
    ensures var options := Merged(sources);
      && LastSet(Said(sources, (o: Options) => o.headerFilterRegex), options.headerFilterRegex)
      && LastSet(Said(sources, (o: Options) => o.systemHeaders), options.systemHeaders)
      && LastSet(Said(sources, (o: Options) => o.analyzeTemporaryDtors), options.analyzeTemporaryDtors)
      && LastSet(Said(sources, (o: Options) => o.user), options.user)
  {
    hide LastSet, Override;
    OverriddenField(sources, (o: Options) => o.headerFilterRegex);
    OverriddenField(sources, (o: Options) => o.systemHeaders);
    OverriddenField(sources, (o: Options) => o.analyzeTemporaryDtors);
    OverriddenField(sources, (o: Options) => o.user);
  }

  function CheckOption(options: Options, key: string): Option<string> {
    if key in options.checkOptions then Some(options.checkOptions[key]) else None
  }

  lemma MergedCheckOption(a: Options, b: Options, key: string)
    ensures CheckOption(a.MergeWith(b), key) == Override(CheckOption(a, key), CheckOption(b, key))
  {
    assert a.MergeWith(b).checkOptions == a.checkOptions + b.checkOptions;
  }

  /** The option of a check is what the last source that has it says. */
  lemma {:induction false} LastCheckOption(sources: seq<Options>, key: string)
    ensures LastSet(Said(sources, (o: Options) => CheckOption(o, key)), CheckOption(Merged(sources), key))
  {
    var field := (o: Options) => CheckOption(o, key);
    if sources != [] {
      hide LastSet, CheckOption, Override;
      var before, last := sources[..|sources| - 1], sources[|sources| - 1];
      LastCheckOption(before, key);
      SaidBefore(sources, field);
      MergedCheckOption(Merged(before), last, key);
      LastSetOneMore(Said(before, field), field(last), CheckOption(Merged(before), key));
    }
  }

  /** The elements of all that is set, in order. */
  function Gathered<T>(values: seq<Option<seq<T>>>): seq<T> {
    if values == [] then
      []
    else
      (if values[0].Some? then values[0].value else []) + Gathered(values[1..])
  }

  lemma {:induction false} GatheredOneMore<T>(values: seq<Option<seq<T>>>, value: Option<seq<T>>)
    ensures Gathered(values + [value]) == Gathered(values) + if value.Some? then value.value else []
  {
    if values == [] {
      assert values + [value] == [value] && [value][1..] == [];
    } else {
      assert (values + [value])[1..] == values[1..] + [value];
      GatheredOneMore(values[1..], value);
    }
  }

  /** Whether a value holds all that is set, and is set if something is. */
  ghost predicate Gathers<T(!new)>(values: seq<Option<seq<T>>>, r: Option<seq<T>>) {
    && (r == None <==> forall n :: 0 <= n < |values| ==> values[n] == None)
    && Gathered(values) == (if r.Some? then r.value else [])
  }

  lemma GathersOneMore<T(!new)>(values: seq<Option<seq<T>>>, value: Option<seq<T>>, r: Option<seq<T>>)
    requires Gathers(values, r)
    ensures Gathers(values + [value], MergeVectors(r, value))
  {
    var more := values + [value];
    GatheredOneMore(values, value);
    assert more[|values|] == value && forall n :: 0 <= n < |values| ==> more[n] == values[n];
  }

  /** A vector holds the elements of all sources, in order, and is set if that of any source is. */
  lemma {:induction false} AppendedField<T(!new)>(sources: seq<Options>, field: Options -> Option<seq<T>>)
    requires field(UNSET) == None
    requires forall a: Options, b: Options :: field(a.MergeWith(b)) == MergeVectors(field(a), field(b))
    ensures Gathers(Said(sources, field), field(Merged(sources)))
  {
    if sources == [] {
      assert Said(sources, field) == [];
    } else {
      var before, last := sources[..|sources| - 1], sources[|sources| - 1];
      hide Gathers, MergeVectors;
      AppendedField(before, field);
      SaidBefore(sources, field);
      GathersOneMore(Said(before, field), field(last), field(Merged(before)));
    }
  }

  lemma ArgumentsAreGathered(sources: seq<Options>)
    ensures var options := Merged(sources);
      && Gathers(Said(sources, (o: Options) => o.extraArgs), options.extraArgs)
      && Gathers(Said(sources, (o: Options) => o.extraArgsBefore), options.extraArgsBefore)
  {
    hide Gathers, MergeVectors;
    AppendedField(sources, (o: Options) => o.extraArgs);
    AppendedField(sources, (o: Options) => o.extraArgsBefore);
  }

  // ------------------------------------------------------------------ filters

  function ListOf(list: Option<string>): string {
    if list.Some? then list.value else ""
  }

  function Comma(s: string): string {
    [','] + s
  }

  lemma CommaIsBetween(a: string, b: string)
    ensures a + "," + b == a + Comma(b)
  {
  }

  lemma RestOfComma(s: string)
    ensures Rest(Comma(s)) == s && Comma(s) != "" && Comma(s)[0] == ','
  {
    assert FindComma(Comma(s)) == 0;
  }

  lemma CommaInside(a: string, n: nat, b: string)
    requires n < |a| && a[n] == ','
    ensures a == a[..n] + Comma(a[n + 1..])
    ensures a + Comma(b) == a[..n] + Comma(a[n + 1..] + Comma(b))
  {
    assert a == a[..n] + [a[n]] + a[n + 1..];
  }

  lemma OneItem(item: string)
    requires ',' !in item
    ensures Intended(item) == Meant(item)
    ensures AllFaithful(item) <==> Faithful(item)
  {
    FirstItem(item, "");
    assert item + "" == item && Rest("") == "";
    assert Meant(item) + [] == Meant(item);
  }

  /** Joining two lists joins what they are meant to hold. */
  lemma {:induction false} JoinedLists(a: string, b: string)
    ensures Intended(a + Comma(b)) == Intended(a) + Intended(b)
    ensures AllFaithful(a + Comma(b)) <==> AllFaithful(a) && AllFaithful(b)
    decreases |a|
  {
    var n := FindComma(a);
    RestOfComma(b);
    assert Intended("") == [] && AllFaithful("");
    if n == |a| {
      OneItem(a);
      hide Intended, AllFaithful, Rest, Meant, Faithful, Comma;
      FirstItem(a, Comma(b));
    } else {
      var item, rest := a[..n], a[n + 1..];
      CommaInside(a, n, b);
      RestOfComma(rest);
      RestOfComma(rest + Comma(b));
      hide Intended, AllFaithful, Rest, Meant, Faithful, Comma;
      FirstItem(item, Comma(rest));
      FirstItem(item, Comma(rest + Comma(b)));
      JoinedLists(rest, b);
      EntriesAssociate(Meant(item), Intended(rest), Intended(b));
    }
  }

  /** A merged list holds the entries of both. */
  lemma MergedLists(dest: Option<string>, src: Option<string>)
    ensures Intended(ListOf(MergeLists(dest, src))) == Intended(ListOf(dest)) + Intended(ListOf(src))
    ensures AllFaithful(ListOf(MergeLists(dest, src))) <==> AllFaithful(ListOf(dest)) && AllFaithful(ListOf(src))
  {
    var a, b := ListOf(dest), ListOf(src);
    assert Intended("") == [];
    if src.None? {
    } else if a != "" {
      JoinedLists(a, b);
      CommaIsBetween(a, b);
    } else {
      assert "" + b == b;
    }
  }

  /** The verdict of the last source that has a glob for the name. */
  function LastVerdict(sources: seq<Options>, s: string): Option<bool> {
    if sources == [] then
      None
    else
      var verdict := Verdict(Intended(ListOf(sources[|sources| - 1].checks)), s);
      if verdict.Some? then verdict else LastVerdict(sources[..|sources| - 1], s)
  }

  lemma EmptyList(s: string)
    ensures Intended("") == [] && AllFaithful("") && Verdict([], s) == None
  {
  }

  lemma {:induction false} MergedVerdict(sources: seq<Options>, s: string)
    ensures Verdict(Intended(ListOf(Merged(sources).checks)), s) == LastVerdict(sources, s)
  {
    hide Intended, AllFaithful, MergeLists, MergeVectors, Override, Verdict;
    EmptyList(s);
    if sources != [] {
      var before, last := sources[..|sources| - 1], sources[|sources| - 1];
      assert Merged(sources).checks == MergeLists(Merged(before).checks, last.checks);
      MergedVerdict(before, s);
      MergedLists(Merged(before).checks, last.checks);
      VerdictOfConcatenation(Intended(ListOf(Merged(before).checks)), Intended(ListOf(last.checks)), s);
    }
  }

  predicate FaithfulSources(sources: seq<Options>) {
    forall n :: 0 <= n < |sources| ==> AllFaithful(ListOf(sources[n].checks))
  }

  lemma {:induction false} MergedFaithful(sources: seq<Options>)
    ensures AllFaithful(ListOf(Merged(sources).checks)) <==> FaithfulSources(sources)
  {
    hide Intended, AllFaithful, MergeLists, MergeVectors, Override;
    EmptyList("");
    if sources != [] {
      var before, last := sources[..|sources| - 1], sources[|sources| - 1];
      assert Merged(sources).checks == MergeLists(Merged(before).checks, last.checks);
      MergedFaithful(before);
      MergedLists(Merged(before).checks, last.checks);
    }
  }

  lemma {:induction false} FirstSource(first: Options, sources: seq<Options>, s: string)
    ensures LastVerdict([first] + sources, s) ==
      var verdict := LastVerdict(sources, s);
      if verdict.Some? then verdict else Verdict(Intended(ListOf(first.checks)), s)
    decreases |sources|
  {
    hide Verdict, Intended;
    var all := [first] + sources;
    if sources == [] {
      assert all == [first] && all[..0] == [];
    } else {
      assert all[..|all| - 1] == [first] + sources[..|sources| - 1];
      FirstSource(first, sources[..|sources| - 1], s);
    }
  }

  /**
    The entries of the list merged from the defaults, in which the modules may have set checks too, and
    from any other sources are those that all these lists are meant to hold, if and only if each of
    the lists is read as it is meant.
    */
  lemma MergedIsReadAsMeant(defaults: Options, sources: seq<Options>)
    requires defaults.checks.Some?
    ensures var options := defaults.MergeWith(Merged(sources));
      && options.checks.Some?
      && Intended(options.checks.value) ==
           Intended(ListOf(defaults.checks)) + Intended(ListOf(Merged(sources).checks))
      && (Read(options.checks.value) == Intended(options.checks.value) <==> FaithfulSources([defaults] + sources))
  {
    hide Read, Intended, AllFaithful, MergeVectors, Override, FaithfulSources, Merged;
    MergedFaithful(sources);
    MergedLists(defaults.checks, Merged(sources).checks);
    ReadsWhatIsMeant(defaults.MergeWith(Merged(sources)).checks.value);
    FaithfulFirst(defaults, sources);
  }

  lemma FaithfulFirst(first: Options, sources: seq<Options>)
    ensures FaithfulSources([first] + sources) <==> AllFaithful(ListOf(first.checks)) && FaithfulSources(sources)
  {
    hide AllFaithful;
    var all := [first] + sources;
    assert all[0] == first && forall n :: 0 <= n < |sources| ==> all[n + 1] == sources[n];
  }

  /**
    The filter then selects a check exactly if the last source that has a glob for it says so, the
    defaults being the first of the sources, and it follows the last such glob of that source.
    */
  lemma MergedFilterSelects(defaults: Options, sources: seq<Options>, s: string)
    requires s != "" && defaults.checks.Some? && FaithfulSources([defaults] + sources)
    ensures var options := defaults.MergeWith(Merged(sources));
      && options.checks.Some?
      && Contains(Parse(options.checks.value), s, false) == Default(LastVerdict([defaults] + sources, s), false)
  {
    hide Read, Intended, AllFaithful, MergeVectors, Override, Verdict, Parse, Contains, FaithfulSources;
    var list := defaults.MergeWith(Merged(sources)).checks.value;
    MergedIsReadAsMeant(defaults, sources);
    ParsedListDecides(list, s, false);
    MergedVerdict(sources, s);
    VerdictOfConcatenation(Intended(ListOf(defaults.checks)), Intended(ListOf(Merged(sources).checks)), s);
    FirstSource(defaults, sources, s);
  }

  /** Lists without white space are read as they are meant. */
  lemma {:induction false} WithoutSpaces(list: string)
    requires forall c <- list :: !IsSpace(c)
    ensures AllFaithful(list)
    decreases |list|
  {
    if list != "" {
      var item := list[..FindComma(list)];
      WithoutSpaces(Rest(list));
      var body := ConsumeNegativeIndicator(item).1;
      var k := TrimFacts(body);
      assert k > 0 ==> IsSpace(body[..k][0]);
      assert k + |Trim(body)| < |body| ==> IsSpace(body[k + |Trim(body)|..][0]);
    }
  }

  // ------------------------------------------------------------------ the order of merging

  predicate Regroups(a: Option<string>, b: Option<string>, c: Option<string>) {
    a.Some? && a.value != "" && b == Some("") && c.Some?
  }

  lemma MergeListsRegroups(a: Option<string>, b: Option<string>, c: Option<string>)
    ensures MergeLists(MergeLists(a, b), c) == MergeLists(a, MergeLists(b, c)) <==> !Regroups(a, b, c)
  {
    assert forall x: string :: "" + x == x;
    if a.Some? && b.Some? && c.Some? && a.value != "" {
      var left := MergeLists(MergeLists(a, b), c).value;
      var right := MergeLists(a, MergeLists(b, c)).value;
      if b.value == "" {
        assert |left| == |right| + 1;
      } else {
        assert left == right;
      }
    }
  }

  /**
    Merging can be regrouped except where an empty list stands between two others: it leaves two
    commas in one order and one in the other.
    */
  lemma MergeIsAssociative(a: Options, b: Options, c: Options)
    ensures a.MergeWith(b).MergeWith(c) == a.MergeWith(b.MergeWith(c)) <==>
      !Regroups(a.checks, b.checks, c.checks) &&
      !Regroups(a.warningsAsErrors, b.warningsAsErrors, c.warningsAsErrors)
  {
    MergeListsRegroups(a.checks, b.checks, c.checks);
    MergeListsRegroups(a.warningsAsErrors, b.warningsAsErrors, c.warningsAsErrors);
    MergeVectorsRegroups(a.extraArgs, b.extraArgs, c.extraArgs);
    MergeVectorsRegroups(a.extraArgsBefore, b.extraArgsBefore, c.extraArgsBefore);
    assert a.checkOptions + b.checkOptions + c.checkOptions == a.checkOptions + (b.checkOptions + c.checkOptions);
  }

  lemma MergeVectorsRegroups<T>(a: Option<seq<T>>, b: Option<seq<T>>, c: Option<seq<T>>)
    ensures MergeVectors(MergeVectors(a, b), c) == MergeVectors(a, MergeVectors(b, c))
  {
    if a.Some? && b.Some? && c.Some? {
      assert a.value + b.value + c.value == a.value + (b.value + c.value);
    }
  }

  /** However the merges are grouped, the lists hold the same entries. */
  lemma GroupingKeepsEntries(a: Option<string>, b: Option<string>, c: Option<string>)
    ensures Intended(ListOf(MergeLists(MergeLists(a, b), c))) == Intended(ListOf(MergeLists(a, MergeLists(b, c))))
  {
    MergedLists(MergeLists(a, b), c);
    MergedLists(a, b);
    MergedLists(a, MergeLists(b, c));
    MergedLists(b, c);
    hide Intended, MergeLists, ListOf, AllFaithful;
    EntriesAssociate(Intended(ListOf(a)), Intended(ListOf(b)), Intended(ListOf(c)));
  }

  lemma EntriesAssociate(a: seq<Entry>, b: seq<Entry>, c: seq<Entry>)
    ensures a + b + c == a + (b + c)
  {
  }
}
