/** What the filters, the errors and the counters mean, in terms of the diagnostics themselves. */
module DiagnosticLaws {

  import FixConflicts
  import opened Wrappers
  import opened StringOrder
  import opened DuplicateErrors
  import opened Diagnostics

  // ------------------------------------------------------------------ one diagnostic

  /** Positions without a file count as user code; others do in the main file or in a matching header. */
  lemma UserCodeExactly(config: Config, d: Diagnostic)
    ensures InUserCode(config, d) <==>
      d.location.Invalid? ||
      ((config.systemHeaders || !d.location.system) &&
       (d.location.file.None? || d.location.main || d.location.file.value in config.headerFilter))
  {
  }

  /** Filter `n` is the first one whose name the file ends with, and it lists the line or has no ranges. */
  predicate Lists(filters: seq<FileFilter>, file: string, line: int, n: nat)
    requires n < |filters|
  {
    && Names(filters[n], file)
    && (forall m :: 0 <= m < n ==> !Names(filters[m], file))
    && (filters[n].lineRanges == [] ||
        exists k :: 0 <= k < |filters[n].lineRanges| &&
          filters[n].lineRanges[k].0 <= line <= filters[n].lineRanges[k].1)
  }

  predicate Names(filter: FileFilter, file: string) {
    exists k :: 0 <= k <= |file| && file[k..] == filter.name
  }

  lemma NamesExactly(filter: FileFilter, file: string)
    ensures Names(filter, file) <==> EndsWith(file, filter.name)
  {
    if EndsWith(file, filter.name) {
      assert file[|file| - |filter.name|..] == filter.name;
    }
  }

  lemma {:induction false} LineFilterExactly(filters: seq<FileFilter>, file: string, line: int)
    ensures PassesLineFilter(filters, file, line) <==>
      exists n :: 0 <= n < |filters| && Lists(filters, file, line, n)
  {
    if filters != [] {
      var rest := filters[1..];
      LineFilterExactly(rest, file, line);
      NamesExactly(filters[0], file);
      RangesExactly(filters[0].lineRanges, line);
      hide Names;
      if EndsWith(file, filters[0].name) {
        assert PassesLineFilter(filters, file, line) <==> Lists(filters, file, line, 0);
      } else {
        forall n | 0 <= n < |rest|
          ensures Lists(rest, file, line, n) <==> Lists(filters, file, line, n + 1)
        {
          ListsShifts(filters, file, line, n);
        }
        if n :| 0 <= n < |filters| && Lists(filters, file, line, n) {
          assert Lists(rest, file, line, n - 1);
        }
      }
    }
  }

  lemma ListsShifts(filters: seq<FileFilter>, file: string, line: int, n: nat)
    requires n + 1 < |filters| && !Names(filters[0], file)
    ensures Lists(filters[1..], file, line, n) <==> Lists(filters, file, line, n + 1)
  {
    hide Names;
    var rest := filters[1..];
    assert forall m :: 0 <= m < |rest| ==> rest[m] == filters[m + 1];
    if Lists(rest, file, line, n) {
      forall m | 0 <= m < n + 1
        ensures !Names(filters[m], file)
      {
        assert m > 0 ==> filters[m] == rest[m - 1];
      }
    }
  }

  lemma RangesExactly(ranges: seq<(int, int)>, line: int)
    ensures (exists range <- ranges :: range.0 <= line <= range.1) <==>
      exists k :: 0 <= k < |ranges| && ranges[k].0 <= line <= ranges[k].1
  {
    if k :| 0 <= k < |ranges| && ranges[k].0 <= line <= ranges[k].1 {
      assert ranges[k] in ranges;
    }
  }

  /** Without line filters every line is listed. */
  lemma ListedLineExactly(config: Config, d: Diagnostic)
    ensures OnListedLine(config, d) <==>
      d.location.Invalid? ||
      ((config.systemHeaders || !d.location.system) &&
       (d.location.file.None? || config.lineFilter == [] ||
        exists n :: 0 <= n < |config.lineFilter| &&
          Lists(config.lineFilter, d.location.file.value, d.location.line, n)))
  {
    if d.location.At? && d.location.file.Some? {
      LineFilterExactly(config.lineFilter, d.location.file.value, d.location.line);
    }
  }

  /** The text of a check's name. */
  function Printed(name: FixConflicts.CheckName): string {
    match name
    case WarningOption(option) => "clang-diagnostic-" + option
    case Check(check) => check
    case CompilerError => "clang-diagnostic-error"
    case CompilerWarning => "clang-diagnostic-warning"
    case Unknown => "clang-diagnostic-unknown"
  }

  /** A warning option goes before a registered name; without either the level gives the name. */
  lemma NameExactly(d: Diagnostic)
    ensures Printed(CheckName(d)) ==
      if d.warningOption != "" then "clang-diagnostic-" + d.warningOption
      else if d.registeredName != "" then d.registeredName
      else match d.level
           case Error => "clang-diagnostic-error"
           case Fatal => "clang-diagnostic-error"
           case Warning => "clang-diagnostic-warning"
           case _ => "clang-diagnostic-unknown"
  {
  }

  /** Marked on its line or on one of the macro expansions around it; errors never are. */
  lemma SuppressedExactly(d: Diagnostic)
    ensures Suppressed(d) <==>
      d.location.At? && d.level !in {Error, Fatal} &&
      exists n :: 0 <= n < |d.location.noLint| && d.location.noLint[n]
  {
  }

  /** Messages are ordered by path; those of one path by offset; those of one place by text. */
  lemma MessageOrder(a: FixConflicts.Message, b: FixConflicts.Message)
    ensures a.path != b.path ==> (MessageLess(a, b) <==> StringLess(a.path, b.path))
    ensures a.path == b.path && a.offset != b.offset ==> (MessageLess(a, b) <==> a.offset < b.offset)
    ensures a.path == b.path && a.offset == b.offset ==> (MessageLess(a, b) <==> StringLess(a.text, b.text))
  {
    StringLessIsTotal(a.path, a.path);
  }

  // ------------------------------------------------------------------ the diagnostics of a group

  /** What is accepted of a block ends in front of the first suppressed diagnostic. */
  lemma {:induction false} AcceptedExactly(block: seq<Diagnostic>)
    ensures var n := |Accepted(block)|;
      && n <= |block| && Accepted(block) == block[..n]
      && (forall m :: 0 <= m < n ==> !Suppressed(block[m]))
      && (n < |block| ==> Suppressed(block[n]))
  {
    hide Suppressed;
    if block != [] {
      AcceptedExactly(block[1..]);
      var n := |Accepted(block[1..])|;
      assert block == [block[0]] + block[1..];
      assert forall m :: 0 < m < |block| ==> block[m] == block[1..][m - 1];
    }
  }

  /** Every block of which something is accepted gives a group, in order. */
  lemma GroupsExactly(blocks: seq<seq<Diagnostic>>, block: seq<Diagnostic>)
    ensures Groups([]) == []
    ensures Groups(blocks + [block]) == Groups(blocks) + (if Accepted(block) == [] then [] else [Accepted(block)])
  {
    assert (blocks + [block])[..|blocks|] == blocks;
  }

  /** A block counts as suppressed if not all of it is accepted. */
  lemma SuppressedBlocksExactly(blocks: seq<seq<Diagnostic>>, block: seq<Diagnostic>)
    ensures CountSuppressed([]) == 0
    ensures CountSuppressed(blocks + [block]) == CountSuppressed(blocks) + (if Accepted(block) == block then 0 else 1)
  {
    assert (blocks + [block])[..|blocks|] == blocks;
  }

  /** The fixes of all diagnostics that have a position, in order. */
  function AllFixes(ds: seq<Diagnostic>): seq<FixConflicts.Replacement> {
    if ds == [] then [] else (if ds[0].location.At? then ds[0].fixes else []) + AllFixes(ds[1..])
  }

  lemma {:induction false} AllFixesAppend(ds: seq<Diagnostic>, d: Diagnostic)
    ensures AllFixes(ds + [d]) == AllFixes(ds) + (if d.location.At? then d.fixes else [])
  {
    if ds == [] {
      assert ds + [d] == [d] && [d][1..] == [];
    } else {
      assert (ds + [d])[1..] == ds[1..] + [d];
      AllFixesAppend(ds[1..], d);
    }
  }

  /** The fix of an error is made of the fixes of its diagnostic and of all its notes. */
  lemma {:induction false} ErrorExactly(config: Config, group: Group)
    ensures var error, d := ErrorOf(config, group), group[0];
      && error.fix == AllFixes(group)
      && error.checkName == CheckName(d)
      && (error.isError <==> d.level in {Error, Fatal})
      && (error.isWarningAsError <==> d.level == Warning && CheckName(d) in config.warningsAsErrors)
      && error.message == (if d.location.At? then FixConflicts.Message(d.location.path, d.location.offset, d.text)
                           else FixConflicts.Message("", 0, d.text))
    ensures var error := ErrorOf(config, group);
      |error.notes| == |group| - 1 && forall n :: 0 < n < |group| ==>
        error.notes[n - 1] == FixConflicts.Attached(
          if group[n].location.At?
          then FixConflicts.Message(group[n].location.path, group[n].location.offset, group[n].text)
          else FixConflicts.Message("", 0, group[n].text))
  {
    var n := |group| - 1;
    var before := group[..n];
    assert group == before + [group[n]];
    AllFixesAppend(before, group[n]);
    if n > 0 {
      ErrorExactly(config, before);
    } else {
      assert before == [];
    }
  }

  // ------------------------------------------------------------------ the verdict

  /** An error itself, or of an enabled check. */
  predicate Enabled(config: Config, group: Group) {
    group[0].level in {Error, Fatal} || CheckName(group[0]) in config.checks
  }

  /** An error itself, or with a diagnostic in user code. */
  predicate Related(config: Config, group: Group) {
    group[0].level in {Error, Fatal} || exists n :: 0 <= n < |group| && InUserCode(config, group[n])
  }

  /** An error itself, or with a diagnostic on a listed line. */
  predicate Listed(config: Config, group: Group) {
    group[0].level in {Error, Fatal} || exists n :: 0 <= n < |group| && OnListedLine(config, group[n])
  }

  lemma VerdictExactly(config: Config, group: Group)
    ensures VerdictOn(config, group) ==
      if !Enabled(config, group) then CheckFilter
      else if !Related(config, group) then NonUser
      else if !Listed(config, group) then LineFilter
      else Displayed
  {
    hide InUserCode, OnListedLine;
    assert (exists d <- group :: InUserCode(config, d)) <==>
      exists n :: 0 <= n < |group| && InUserCode(config, group[n]);
    assert (exists d <- group :: OnListedLine(config, d)) <==>
      exists n :: 0 <= n < |group| && OnListedLine(config, group[n]);
  }

  /**
    The error of a group is shown exactly if its diagnostic is an error, or if its check is enabled, some
    diagnostic of it is in user code, and some is on a listed line; the shown errors are in order.
    */
  lemma ShownExactly(config: Config, groups: seq<Group>, group: Group)
    ensures Shown(config, []) == []
    ensures Shown(config, groups + [group]) == Shown(config, groups) + (
      if group[0].level in {Error, Fatal} ||
         (&& CheckName(group[0]) in config.checks
          && (exists n :: 0 <= n < |group| && InUserCode(config, group[n]))
          && (exists n :: 0 <= n < |group| && OnListedLine(config, group[n])))
      then [ErrorOf(config, group)] else [])
  {
    hide VerdictOn, ErrorOf, InUserCode, OnListedLine, CheckName;
    assert (groups + [group])[..|groups|] == groups;
    ShownLast(config, groups + [group]);
    VerdictExactly(config, group);
  }

  /** The number of places in a list where a predicate holds. */
  function HowMany<T>(xs: seq<T>, p: T -> bool): nat {
    |set n | 0 <= n < |xs| && p(xs[n])|
  }

  lemma HowManyOneMore<T>(xs: seq<T>, x: T, p: T -> bool)
    ensures HowMany<T>([], p) == 0
    ensures HowMany(xs + [x], p) == HowMany(xs, p) + (if p(x) then 1 else 0)
  {
    var before := set n | 0 <= n < |xs| && p(xs[n]);
    var after := set n | 0 <= n < |xs + [x]| && p((xs + [x])[n]);
    assert after == before + (if p(x) then {|xs|} else {});
  }

  /** Every counter is the number of groups that fail its test and none before, or pass them all. */
  lemma {:induction false} CountersExactly(config: Config, groups: seq<Group>)
    ensures var tally := Tally(config, groups);
      && tally.checkFilter == HowMany(groups, (g: Group) => !Enabled(config, g))
      && tally.nonUser == HowMany(groups, (g: Group) => Enabled(config, g) && !Related(config, g))
      && tally.lineFilter ==
           HowMany(groups, (g: Group) => Enabled(config, g) && Related(config, g) && !Listed(config, g))
      && tally.displayed ==
           HowMany(groups, (g: Group) => Enabled(config, g) && Related(config, g) && Listed(config, g))
      && tally.noLint == 0
  {
    hide Enabled, Related, Listed, HowMany, VerdictOn;
    var first := (g: Group) => !Enabled(config, g);
    var second := (g: Group) => Enabled(config, g) && !Related(config, g);
    var third := (g: Group) => Enabled(config, g) && Related(config, g) && !Listed(config, g);
    var fourth := (g: Group) => Enabled(config, g) && Related(config, g) && Listed(config, g);
    var before, last: Group := [], [Diagnostic(Warning, Invalid, "", "", "", [])];
    if groups != [] {
      before, last := groups[..|groups| - 1], groups[|groups| - 1];
      assert groups == before + [last];
      CountersExactly(config, before);
      VerdictExactly(config, last);
      ShownLast(config, groups);
    }
    HowManyOneMore(before, last, first);
    HowManyOneMore(before, last, second);
    HowManyOneMore(before, last, third);
    HowManyOneMore(before, last, fourth);
  }
}
