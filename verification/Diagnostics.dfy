/**
  From compiler diagnostics to stored errors.

  The consumer keeps the error it is working on at the end of a list, decides about it when the next
  one arrives, and counts what it drops.  Here its state is tied to the sequence of diagnostics it
  has seen in the current translation unit.
  */
module Diagnostics {

  import opened Wrappers
  import FixConflicts
  import opened DuplicateErrors

  datatype Level = Note | Remark | Warning | Error | Fatal

  /** `noLint` says of the line itself, and of each macro expansion around it, whether it is marked. */
  datatype Location =
    | Invalid
    | At(noLint: seq<bool>, system: bool, file: Option<string>, main: bool, line: int, path: string, offset: int)

  datatype Diagnostic = Diagnostic(
    level: Level,
    location: Location,
    warningOption: string,
    registeredName: string,
    text: string,
    fixes: seq<FixConflicts.Replacement>)

  datatype FileFilter = FileFilter(name: string, lineRanges: seq<(int, int)>)

  /** The names that the check filters select, the files that the header filter matches, and the lines. */
  datatype Config = Config(
    checks: iset<FixConflicts.CheckName>,
    warningsAsErrors: iset<FixConflicts.CheckName>,
    systemHeaders: bool,
    headerFilter: iset<string>,
    lineFilter: seq<FileFilter>)

  datatype Stats = Stats(displayed: int, checkFilter: int, noLint: int, nonUser: int, lineFilter: int)
  {
    function Plus(other: Stats): Stats {
      Stats(
        displayed + other.displayed,
        checkFilter + other.checkFilter,
        noLint + other.noLint,
        nonUser + other.nonUser,
        lineFilter + other.lineFilter)
    }

    function Decided(): int {
      displayed + checkFilter + nonUser + lineFilter
    }
  }

  const NO_STATS := Stats(0, 0, 0, 0, 0)

  // ------------------------------------------------------------------ what is said about one diagnostic

  predicate IsError(d: Diagnostic) {
    d.level.Error? || d.level.Fatal?
  }

  /** A warning or a note is ignored if its line, or a macro expansion around it, is marked. */
  predicate Suppressed(d: Diagnostic) {
    d.location.At? && !IsError(d) && true in d.location.noLint
  }

  function CheckName(d: Diagnostic): FixConflicts.CheckName {
    if d.warningOption != "" then FixConflicts.WarningOption(d.warningOption)
    else if d.registeredName != "" then FixConflicts.Check(d.registeredName)
    else if IsError(d) then FixConflicts.CompilerError
    else if d.level.Warning? then FixConflicts.CompilerWarning
    else FixConflicts.Unknown
  }

  predicate EndsWith(s: string, suffix: string) {
    |suffix| <= |s| && s[|s| - |suffix|..] == suffix
  }

  function MessageOf(d: Diagnostic): FixConflicts.Message {
    if d.location.At? then FixConflicts.Message(d.location.path, d.location.offset, d.text)
    else FixConflicts.Message("", 0, d.text)
  }

  function FixOf(d: Diagnostic): seq<FixConflicts.Replacement> {
    if d.location.At? then d.fixes else []
  }

  /** The first filter whose name the file ends with decides. */
  predicate PassesLineFilter(filters: seq<FileFilter>, file: string, line: int) {
    if filters == [] then
      false
    else if EndsWith(file, filters[0].name) then
      filters[0].lineRanges == [] || exists range <- filters[0].lineRanges :: range.0 <= line <= range.1
    else
      PassesLineFilter(filters[1..], file, line)
  }

  /** The diagnostic says nothing about the filters. */
  predicate Skipped(config: Config, d: Diagnostic) {
    d.location.At? && !config.systemHeaders && d.location.system
  }

  /** Positions on the command line are not filtered. */
  predicate Unfiltered(d: Diagnostic) {
    d.location.Invalid? || d.location.file.None?
  }

  predicate InUserCode(config: Config, d: Diagnostic) {
    !Skipped(config, d) &&
    (Unfiltered(d) || d.location.main || d.location.file.value in config.headerFilter)
  }

  predicate OnListedLine(config: Config, d: Diagnostic) {
    !Skipped(config, d) &&
    (Unfiltered(d) || config.lineFilter == [] ||
     PassesLineFilter(config.lineFilter, d.location.file.value, d.location.line))
  }

  // ------------------------------------------------------------------ what is said about a whole unit

  /** An accepted diagnostic with its accepted notes. */
  type Group = ds: seq<Diagnostic> | ds != [] witness [Diagnostic(Warning, Invalid, "", "", "", [])]

  /** Every other diagnostic with the notes that follow it. */
  function Blocks(ds: seq<Diagnostic>): seq<seq<Diagnostic>> {
    if ds == [] then
      []
    else
      var blocks, d := Blocks(ds[..|ds| - 1]), ds[|ds| - 1];
      if !d.level.Note? || blocks == [] then blocks + [[d]]
      else blocks[..|blocks| - 1] + [blocks[|blocks| - 1] + [d]]
  }

  /** A suppressed diagnostic takes what follows it in the block with it. */
  function Accepted(block: seq<Diagnostic>): seq<Diagnostic> {
    if block == [] || Suppressed(block[0]) then [] else [block[0]] + Accepted(block[1..])
  }

  /** The accepted part of every block whose first diagnostic is accepted. */
  function Groups(blocks: seq<seq<Diagnostic>>): seq<Group> {
    if blocks == [] then
      []
    else
      var accepted := Accepted(blocks[|blocks| - 1]);
      Groups(blocks[..|blocks| - 1]) + (if accepted == [] then [] else [accepted])
  }

  function CountSuppressed(blocks: seq<seq<Diagnostic>>): int {
    if blocks == [] then
      0
    else
      CountSuppressed(blocks[..|blocks| - 1]) +
      (if Accepted(blocks[|blocks| - 1]) != blocks[|blocks| - 1] then 1 else 0)
  }

  predicate RelatesToUserCode(config: Config, group: Group)
  {
    IsError(group[0]) || exists d <- group :: InUserCode(config, d)
  }

  predicate PassesLines(config: Config, group: Group)
  {
    IsError(group[0]) || exists d <- group :: OnListedLine(config, d)
  }

  datatype Verdict = Displayed | CheckFilter | NonUser | LineFilter

  function VerdictOn(config: Config, group: Group): Verdict
  {
    if !IsError(group[0]) && CheckName(group[0]) !in config.checks then CheckFilter
    else if !RelatesToUserCode(config, group) then NonUser
    else if !PassesLines(config, group) then LineFilter
    else Displayed
  }

  /** The error made of a diagnostic and its notes; the fixes of the notes belong to it too. */
  function ErrorOf(config: Config, group: Group): TidyError
  {
    var n := |group| - 1;
    if n == 0 then
      var d := group[0];
      FixConflicts.Error(
        CheckName(d),
        IsError(d),
        d.level.Warning? && CheckName(d) in config.warningsAsErrors,
        MessageOf(d),
        [],
        FixOf(d))
    else
      var error := ErrorOf(config, group[..n]);
      error.(notes := error.notes + [FixConflicts.Attached(MessageOf(group[n]))], fix := error.fix + FixOf(group[n]))
  }

  function Once(verdict: Verdict): Stats {
    match verdict
    case Displayed => Stats(1, 0, 0, 0, 0)
    case CheckFilter => Stats(0, 1, 0, 0, 0)
    case NonUser => Stats(0, 0, 0, 1, 0)
    case LineFilter => Stats(0, 0, 0, 0, 1)
  }

  function Tally(config: Config, groups: seq<Group>): Stats
  {
    if groups == [] then
      NO_STATS
    else
      var n := |groups| - 1;
      Tally(config, groups[..n]).Plus(Once(VerdictOn(config, groups[n])))
  }

  /** The errors of the groups that pass every filter, in order. */
  function Shown(config: Config, groups: seq<Group>): seq<TidyError>
  {
    if groups == [] then
      []
    else
      var n := |groups| - 1;
      Shown(config, groups[..n]) +
      (if VerdictOn(config, groups[n]).Displayed? then [ErrorOf(config, groups[n])] else [])
  }

  lemma {:induction false} ErrorOfHead(config: Config, group: Group)
    ensures var error := ErrorOf(config, group);
      && error.checkName == CheckName(group[0])
      && error.isError == IsError(group[0])
      && |error.notes| == |group| - 1
  {
    if |group| > 1 {
      ErrorOfHead(config, group[..|group| - 1]);
    }
  }

  // ------------------------------------------------------------------ one more diagnostic

  lemma BlocksOneMore(ds: seq<Diagnostic>, d: Diagnostic)
    ensures Blocks(ds + [d]) ==
      var blocks := Blocks(ds);
      if !d.level.Note? || blocks == [] then blocks + [[d]]
      else blocks[..|blocks| - 1] + [blocks[|blocks| - 1] + [d]]
    ensures ds != [] ==> Blocks(ds) != []
  {
    assert (ds + [d])[..|ds|] == ds;
  }

  lemma {:induction false} AcceptedOneMore(block: seq<Diagnostic>, d: Diagnostic)
    ensures Accepted(block + [d]) == if Accepted(block) == block && !Suppressed(d) then block + [d] else Accepted(block)
    ensures |Accepted(block)| <= |block|
  {
    if block != [] {
      assert (block + [d])[1..] == block[1..] + [d];
      AcceptedOneMore(block[1..], d);
      if Suppressed(block[0]) {
        assert Accepted(block) == [] && Accepted(block + [d]) == [];
      } else {
        assert Accepted(block) == block <==> Accepted(block[1..]) == block[1..];
      }
    }
  }

  /** The last block was cut short. */
  predicate Cut(blocks: seq<seq<Diagnostic>>) {
    blocks != [] && Accepted(blocks[|blocks| - 1]) != blocks[|blocks| - 1]
  }

  /** A note behind a suppressed diagnostic changes nothing. */
  lemma GroupsWhenDropped(ds: seq<Diagnostic>, d: Diagnostic)
    requires d.level.Note? && Cut(Blocks(ds))
    ensures Groups(Blocks(ds + [d])) == Groups(Blocks(ds)) && Cut(Blocks(ds + [d]))
    ensures CountSuppressed(Blocks(ds + [d])) == CountSuppressed(Blocks(ds))
  {
    var before, after := Blocks(ds), Blocks(ds + [d]);
    BlocksOneMore(ds, d);
    var n := |after| - 1;
    assert after[..n] == before[..n];
    AcceptedOneMore(before[n], d);
  }

  /** A suppressed diagnostic leaves the groups as they are. */
  lemma GroupsWhenSuppressed(ds: seq<Diagnostic>, d: Diagnostic)
    requires Suppressed(d) && (d.level.Note? ==> ds != [] && !Cut(Blocks(ds)))
    ensures Groups(Blocks(ds + [d])) == Groups(Blocks(ds)) && Cut(Blocks(ds + [d]))
    ensures CountSuppressed(Blocks(ds + [d])) == CountSuppressed(Blocks(ds)) + 1
  {
    var before, after := Blocks(ds), Blocks(ds + [d]);
    BlocksOneMore(ds, d);
    var n := |after| - 1;
    if d.level.Note? {
      assert after[..n] == before[..n];
      AcceptedOneMore(before[n], d);
      BlocksNotEmpty(ds);
    } else {
      assert after[..n] == before;
    }
  }

  /** An accepted note joins the last group. */
  lemma GroupsWhenNote(ds: seq<Diagnostic>, d: Diagnostic)
    requires d.level.Note? && ds != [] && !Cut(Blocks(ds)) && !Suppressed(d)
    ensures var groups := Groups(Blocks(ds));
      groups != [] && Groups(Blocks(ds + [d])) == groups[..|groups| - 1] + [groups[|groups| - 1] + [d]]
    ensures !Cut(Blocks(ds + [d])) && CountSuppressed(Blocks(ds + [d])) == CountSuppressed(Blocks(ds))
  {
    var before, after := Blocks(ds), Blocks(ds + [d]);
    BlocksOneMore(ds, d);
    var n := |after| - 1;
    assert after[..n] == before[..n];
    AcceptedOneMore(before[n], d);
    BlocksNotEmpty(ds);
  }

  /** Any other diagnostic begins a group. */
  lemma GroupsWhenNew(ds: seq<Diagnostic>, d: Diagnostic)
    requires !d.level.Note? && !Suppressed(d)
    ensures Groups(Blocks(ds + [d])) == Groups(Blocks(ds)) + [[d]]
    ensures !Cut(Blocks(ds + [d])) && CountSuppressed(Blocks(ds + [d])) == CountSuppressed(Blocks(ds))
  {
    var before, after := Blocks(ds), Blocks(ds + [d]);
    BlocksOneMore(ds, d);
    assert after[..|before|] == before;
    AcceptedOneMore([], d);
    assert [] + [d] == [d];
  }

  lemma {:induction false} BlocksNotEmpty(ds: seq<Diagnostic>)
    ensures forall block <- Blocks(ds) :: block != []
  {
    if ds != [] {
      var before, after := Blocks(ds[..|ds| - 1]), Blocks(ds);
      BlocksNotEmpty(ds[..|ds| - 1]);
      forall n | 0 <= n < |after|
        ensures after[n] != []
      {
        assert n < |before| ==> before[n] in before;
      }
    }
  }

  // ------------------------------------------------------------------ the consumer

  function Suppressions(n: int): Stats {
    NO_STATS.(noLint := n)
  }

  /** The fields that change with every diagnostic. */
  datatype Snapshot = Snapshot(
    errors: seq<TidyError>,
    lastErrorRelatesToUserCode: bool,
    lastErrorPassesLineFilter: bool,
    stats: Stats)

  /** Every group is decided about. */
  function Decided(config: Config, base: Stats, groups: seq<Group>, suppressed: int): Snapshot {
    Snapshot(
      Shown(config, groups),
      false,
      false,
      base.Plus(Tally(config, groups)).Plus(Suppressions(suppressed)))
  }

  /** Every group but the last is decided about; the last error is that of the last group. */
  function Pending(config: Config, base: Stats, groups: seq<Group>, suppressed: int): Snapshot {
    if groups == [] then
      Decided(config, base, groups, suppressed)
    else
      var before, group := groups[..|groups| - 1], groups[|groups| - 1];
      Snapshot(
        Shown(config, before) + [ErrorOf(config, group)],
        RelatesToUserCode(config, group),
        PassesLines(config, group),
        base.Plus(Tally(config, before)).Plus(Suppressions(suppressed)))
  }

  /** Deciding about the last group. */
  lemma DecidedFromPending(config: Config, base: Stats, groups: seq<Group>, suppressed: int)
    requires groups != []
    ensures var pending := Pending(config, base, groups, suppressed);
      var decided := Decided(config, base, groups, suppressed);
      var n := |pending.errors| - 1;
      var verdict := VerdictOn(config, groups[|groups| - 1]);
      && n >= 0
      && decided.errors == (if verdict.Displayed? then pending.errors else pending.errors[..n])
      && decided.stats == pending.stats.Plus(Once(verdict))
      && pending.errors[n] == ErrorOf(config, groups[|groups| - 1])
  {
    hide VerdictOn, ErrorOf, RelatesToUserCode, PassesLines, Shown, Tally, Stats.Plus;
    var before, verdict := groups[..|groups| - 1], VerdictOn(config, groups[|groups| - 1]);
    ShownLast(config, groups);
    PlusRegroups(base, Tally(config, before), Once(verdict), Suppressions(suppressed));
    if !verdict.Displayed? {
      var errors := Shown(config, before);
      assert (errors + [ErrorOf(config, groups[|groups| - 1])])[..|errors|] == errors;
      assert errors + [] == errors;
    }
  }

  lemma NothingShown(config: Config)
    ensures Shown(config, []) == []
  {
  }

  lemma ShownLast(config: Config, groups: seq<Group>)
    requires groups != []
    ensures var before, last := groups[..|groups| - 1], groups[|groups| - 1];
      && Tally(config, groups) == Tally(config, before).Plus(Once(VerdictOn(config, last)))
      && Shown(config, groups) ==
           Shown(config, before) + (if VerdictOn(config, last).Displayed? then [ErrorOf(config, last)] else [])
  {
    hide VerdictOn, ErrorOf;
  }

  lemma PlusRegroups(a: Stats, b: Stats, c: Stats, d: Stats)
    ensures a.Plus(b.Plus(c)).Plus(d) == a.Plus(b).Plus(d).Plus(c)
  {
  }

  lemma PendingWithNew(config: Config, base: Stats, groups: seq<Group>, suppressed: int, d: Diagnostic)
    ensures var decided := Decided(config, base, groups, suppressed);
      var after := Pending(config, base, groups + [[d]], suppressed);
      && after.errors == decided.errors + [FixConflicts.Error(
           CheckName(d),
           IsError(d),
           d.level.Warning? && CheckName(d) in config.warningsAsErrors,
           MessageOf(d),
           [],
           FixOf(d))]
      && after.lastErrorRelatesToUserCode == (IsError(d) || InUserCode(config, d))
      && after.lastErrorPassesLineFilter == (IsError(d) || OnListedLine(config, d))
      && after.stats == decided.stats
  {
    assert (groups + [[d]])[..|groups|] == groups;
    assert forall e <- [d] :: e == d;
  }

  lemma GroupWithNote(config: Config, group: Group, d: Diagnostic)
    ensures RelatesToUserCode(config, group + [d]) <==> RelatesToUserCode(config, group) || InUserCode(config, d)
    ensures PassesLines(config, group + [d]) <==> PassesLines(config, group) || OnListedLine(config, d)
    ensures (group + [d])[..|group|] == group
  {
  }

  lemma PendingWithNote(config: Config, base: Stats, groups: seq<Group>, suppressed: int, d: Diagnostic)
    requires groups != []
    ensures var pending := Pending(config, base, groups, suppressed);
      var n := |pending.errors| - 1;
      n >= 0 && var error := pending.errors[n];
      var after := Pending(config, base, groups[..|groups| - 1] + [groups[|groups| - 1] + [d]], suppressed);
      && after.errors == pending.errors[n := error.(
           notes := error.notes + [FixConflicts.Attached(MessageOf(d))],
           fix := error.fix + FixOf(d))]
      && after.lastErrorRelatesToUserCode == (pending.lastErrorRelatesToUserCode || InUserCode(config, d))
      && after.lastErrorPassesLineFilter == (pending.lastErrorPassesLineFilter || OnListedLine(config, d))
      && after.stats == pending.stats
  {
    var m := |groups| - 1;
    GroupWithNote(config, groups[m], d);
    assert (groups[..m] + [groups[m] + [d]])[..m] == groups[..m];
    hide Shown, Tally, RelatesToUserCode, PassesLines;
  }

  lemma Fresh(config: Config)
    ensures Snapshot([], false, false, NO_STATS) ==
      Pending(config, NO_STATS, Groups(Blocks([])), CountSuppressed(Blocks([])))
  {
    assert Blocks([]) == [];
    assert Groups([]) == [];
    assert CountSuppressed([]) == 0;
  }

  /** What the fields say when all of `ds` was seen. */
  function Expected(config: Config, base: Stats, ds: seq<Diagnostic>): Snapshot {
    Pending(config, base, Groups(Blocks(ds)), CountSuppressed(Blocks(ds)))
  }

  predicate Ignoring(ds: seq<Diagnostic>) {
    Cut(Blocks(ds))
  }

  lemma OneMoreSuppression(config: Config, base: Stats, groups: seq<Group>, n: int)
    ensures var before := Pending(config, base, groups, n);
      Pending(config, base, groups, n + 1) == before.(stats := before.stats.(noLint := before.stats.noLint + 1))
  {
    hide Shown, Tally, ErrorOf, RelatesToUserCode, PassesLines;
  }

  lemma ExpectedWhenDropped(config: Config, base: Stats, ds: seq<Diagnostic>, d: Diagnostic)
    requires d.level.Note? && Ignoring(ds)
    ensures Ignoring(ds + [d]) && Expected(config, base, ds + [d]) == Expected(config, base, ds)
  {
    GroupsWhenDropped(ds, d);
    hide Blocks, Groups, CountSuppressed, Pending;
  }

  lemma ExpectedWhenSuppressed(config: Config, base: Stats, ds: seq<Diagnostic>, d: Diagnostic)
    requires Suppressed(d) && (d.level.Note? ==> ds != [] && !Ignoring(ds))
    ensures Ignoring(ds + [d])
    ensures var before, after := Expected(config, base, ds), Expected(config, base, ds + [d]);
      && after.errors == before.errors
      && after.lastErrorRelatesToUserCode == before.lastErrorRelatesToUserCode
      && after.lastErrorPassesLineFilter == before.lastErrorPassesLineFilter
      && after.stats == before.stats.(noLint := before.stats.noLint + 1)
  {
    hide Blocks, Groups, Accepted, CountSuppressed, Shown, Tally, VerdictOn, ErrorOf, RelatesToUserCode,
      PassesLines, Pending, InUserCode, OnListedLine, Suppressed;
    GroupsWhenSuppressed(ds, d);
    OneMoreSuppression(config, base, Groups(Blocks(ds)), CountSuppressed(Blocks(ds)));
  }

  lemma ExpectedWithNote(config: Config, base: Stats, ds: seq<Diagnostic>, d: Diagnostic)
    requires !Suppressed(d) && d.level.Note? && ds != [] && !Ignoring(ds)
    ensures !Ignoring(ds + [d])
    ensures Expected(config, base, ds) == Pending(config, base, Groups(Blocks(ds)), CountSuppressed(Blocks(ds)))
    ensures var groups, n := Groups(Blocks(ds)), CountSuppressed(Blocks(ds));
      groups != [] && Expected(config, base, ds + [d]) ==
        Pending(config, base, groups[..|groups| - 1] + [groups[|groups| - 1] + [d]], n)
  {
    GroupsWhenNote(ds, d);
    hide Blocks, Groups, CountSuppressed, Pending;
  }

  lemma ExpectedWithNew(config: Config, base: Stats, ds: seq<Diagnostic>, d: Diagnostic)
    requires !Suppressed(d) && !d.level.Note?
    ensures !Ignoring(ds + [d])
    ensures Expected(config, base, ds) == Pending(config, base, Groups(Blocks(ds)), CountSuppressed(Blocks(ds)))
    ensures Expected(config, base, ds + [d]) ==
      Pending(config, base, Groups(Blocks(ds)) + [[d]], CountSuppressed(Blocks(ds)))
  {
    GroupsWhenNew(ds, d);
    hide Blocks, Groups, CountSuppressed, Pending;
  }

  lemma EmptyUnit(config: Config, base: Stats)
    ensures var e := Expected(config, base, []);
      e.errors == [] && !e.lastErrorRelatesToUserCode && !e.lastErrorPassesLineFilter && e.stats == base
  {
    assert Blocks([]) == [] && Groups([]) == [] && CountSuppressed([]) == 0;
  }

  lemma NothingStoredClashes(errors: seq<TidyError>, r: seq<TidyError>)
    requires |r| == |errors|
    requires forall j :: 0 <= j < |r| ==>
      r[j].fix == if FixConflicts.Applicable(errors, j) then errors[j].fix else []
    ensures forall k, n, l, m ::
      0 <= k < |r| && 0 <= n < |r[k].fix| && 0 <= l < |r| && 0 <= m < |r[l].fix| && (k, n) != (l, m) &&
      r[k].fix[n].length > 0 && r[l].fix[m].length > 0 ==>
      var p, q := r[k].fix[n], r[l].fix[m];
      p.path == q.path ==> p.offset + p.length <= q.offset || q.offset + q.length <= p.offset
  {
    forall k, n, l, m |
      0 <= k < |r| && 0 <= n < |r[k].fix| && 0 <= l < |r| && 0 <= m < |r[l].fix| && (k, n) != (l, m) &&
      r[k].fix[n].length > 0 && r[l].fix[m].length > 0
      ensures var p, q := r[k].fix[n], r[l].fix[m];
        p.path == q.path ==> p.offset + p.length <= q.offset || q.offset + q.length <= p.offset
    {
      FixConflicts.NothingClashes(errors, r, k, n, l, m);
    }
  }

  class Consumer {
    const config: Config
    var errors: seq<TidyError>
    var lastErrorRelatesToUserCode: bool
    var lastErrorPassesLineFilter: bool
    var lastErrorWasIgnored: bool
    var stats: Stats
    var stored: seq<TidyError>

    /** The diagnostics of the current unit, and the counters at its beginning. */
    ghost var seen: seq<Diagnostic>
    ghost var base: Stats

    constructor (config: Config)
      ensures Valid() && this.config == config
      ensures seen == [] && base == NO_STATS && stored == []
    {
      this.config := config;
      errors, stored, seen := [], [], [];
      lastErrorRelatesToUserCode, lastErrorPassesLineFilter, lastErrorWasIgnored := false, false, false;
      stats, base := NO_STATS, NO_STATS;
      new;
      Fresh(config);
    }

    ghost predicate Holds(s: Snapshot)
      reads this
    {
      && errors == s.errors
      && lastErrorRelatesToUserCode == s.lastErrorRelatesToUserCode
      && lastErrorPassesLineFilter == s.lastErrorPassesLineFilter
      && stats == s.stats
    }

    ghost predicate Valid()
      reads this
    {
      && Holds(Expected(config, base, seen))
      && (seen != [] ==> lastErrorWasIgnored == Ignoring(seen))
    }

    method FinalizeLastError(ghost groups: seq<Group>, ghost suppressed: int)
      requires Holds(Pending(config, base, groups, suppressed))
      modifies this`errors, this`stats, this`lastErrorRelatesToUserCode, this`lastErrorPassesLineFilter
      ensures Holds(Decided(config, base, groups, suppressed))
    {
      hide Blocks, Groups, Accepted, CountSuppressed, InUserCode, OnListedLine, Shown, Tally, ErrorOf, CheckName,
        RelatesToUserCode, PassesLines;
      if groups == [] {
        NothingShown(config);
      } else {
        DecidedFromPending(config, base, groups, suppressed);
        ErrorOfHead(config, groups[|groups| - 1]);
      }
      if errors != [] {
        var n := |errors| - 1;
        var error := errors[n];
        if error.checkName !in config.checks && !error.isError {
          stats := stats.(checkFilter := stats.checkFilter + 1);
          errors := errors[..n];
        } else if !lastErrorRelatesToUserCode {
          stats := stats.(nonUser := stats.nonUser + 1);
          errors := errors[..n];
        } else if !lastErrorPassesLineFilter {
          stats := stats.(lineFilter := stats.lineFilter + 1);
          errors := errors[..n];
        } else {
          stats := stats.(displayed := stats.displayed + 1);
        }
      }
      lastErrorRelatesToUserCode := false;
      lastErrorPassesLineFilter := false;
    }

    method IsMarked(location: Location) returns (marked: bool)
      requires location.At?
      ensures marked == (true in location.noLint)
    {
      for n := 0 to |location.noLint|
        invariant true !in location.noLint[..n]
      {
        if location.noLint[n] {
          return true;
        }
      }
      return false;
    }

    method CheckLineFilter(file: string, line: int) returns (passes: bool)
      ensures passes == (config.lineFilter == [] || PassesLineFilter(config.lineFilter, file, line))
    {
      var filters := config.lineFilter;
      if filters == [] {
        return true;
      }
      for n := 0 to |filters|
        invariant PassesLineFilter(filters, file, line) == PassesLineFilter(filters[n..], file, line)
      {
        if EndsWith(file, filters[n].name) {
          var ranges := filters[n].lineRanges;
          if ranges == [] {
            return true;
          }
          for m := 0 to |ranges|
            invariant forall range <- ranges[..m] :: !(range.0 <= line <= range.1)
          {
            if ranges[m].0 <= line <= ranges[m].1 {
              return true;
            }
          }
          return false;
        }
      }
      return false;
    }

    /** Adds what the position of a diagnostic says about the filters. */
    method CheckFilters(d: Diagnostic)
      modifies this`lastErrorRelatesToUserCode, this`lastErrorPassesLineFilter
      ensures lastErrorRelatesToUserCode == (old(lastErrorRelatesToUserCode) || InUserCode(config, d))
      ensures lastErrorPassesLineFilter == (old(lastErrorPassesLineFilter) || OnListedLine(config, d))
    {
      var location := d.location;
      if location.Invalid? {
        lastErrorRelatesToUserCode, lastErrorPassesLineFilter := true, true;
        return;
      }
      if !config.systemHeaders && location.system {
        return;
      }
      if location.file.None? {
        lastErrorRelatesToUserCode, lastErrorPassesLineFilter := true, true;
        return;
      }
      var file := location.file.value;
      lastErrorRelatesToUserCode := lastErrorRelatesToUserCode || location.main || file in config.headerFilter;
      var passes := CheckLineFilter(file, location.line);
      lastErrorPassesLineFilter := lastErrorPassesLineFilter || passes;
    }

    /** Drops a note behind a suppressed diagnostic, and a diagnostic on a marked line. */
    method DropIgnored(d: Diagnostic) returns (dropped: bool)
      requires Valid() && (d.level.Note? ==> seen != [])
      modifies this`stats, this`lastErrorWasIgnored, this`seen
      ensures Valid()
      ensures dropped <==> Suppressed(d) || (d.level.Note? && Ignoring(old(seen)))
      ensures seen == if dropped then old(seen) + [d] else old(seen)
    {
      hide Expected, Ignoring;
      if lastErrorWasIgnored && d.level.Note? {
        ExpectedWhenDropped(config, base, seen, d);
        seen := seen + [d];
        return true;
      }
      if d.location.At? && !IsError(d) {
        var marked := IsMarked(d.location);
        if marked {
          ExpectedWhenSuppressed(config, base, seen, d);
          stats := stats.(noLint := stats.noLint + 1);
          lastErrorWasIgnored := true;
          seen := seen + [d];
          return true;
        }
      }
      return false;
    }

    /** A unit starts with a diagnostic that is not a note. */
    method HandleDiagnostic(d: Diagnostic)
      requires Valid() && (d.level.Note? ==> seen != [])
      modifies this
      ensures Valid()
      ensures seen == old(seen) + [d] && base == old(base) && stored == old(stored)
    {
      hide Expected, Ignoring;
      var dropped := DropIgnored(d);
      if dropped {
        return;
      }
      lastErrorWasIgnored := false;
      if d.level.Note? {
        AddNote(d);
      } else {
        AddError(d);
      }
    }

    method AddNote(d: Diagnostic)
      requires Holds(Expected(config, base, seen)) && seen != [] && !lastErrorWasIgnored
      requires d.level.Note? && !Suppressed(d) && !Ignoring(seen)
      modifies this`errors, this`lastErrorRelatesToUserCode, this`lastErrorPassesLineFilter, this`seen
      ensures Valid()
      ensures seen == old(seen) + [d]
    {
      hide Blocks, Groups, Accepted, CountSuppressed, Shown, Tally, VerdictOn, ErrorOf, RelatesToUserCode,
        PassesLines, Pending, Decided, Expected, Ignoring, InUserCode, OnListedLine;
      ghost var groups, suppressed := Groups(Blocks(seen)), CountSuppressed(Blocks(seen));
      ExpectedWithNote(config, base, seen, d);
      PendingWithNote(config, base, groups, suppressed, d);
      var n := |errors| - 1;
      var error := errors[n];
      errors := errors[n := error.(
        notes := error.notes + [FixConflicts.Attached(MessageOf(d))],
        fix := error.fix + FixOf(d))];
      CheckFilters(d);
      seen := seen + [d];
    }

    method AddError(d: Diagnostic)
      requires Holds(Expected(config, base, seen)) && !lastErrorWasIgnored
      requires !d.level.Note? && !Suppressed(d)
      modifies this`errors, this`stats, this`lastErrorRelatesToUserCode, this`lastErrorPassesLineFilter, this`seen
      ensures Valid()
      ensures seen == old(seen) + [d]
    {
      hide Blocks, Groups, Accepted, CountSuppressed, Shown, Tally, VerdictOn, ErrorOf, RelatesToUserCode,
        PassesLines, Pending, Expected, Ignoring, InUserCode, OnListedLine;
      ghost var groups, suppressed := Groups(Blocks(seen)), CountSuppressed(Blocks(seen));
      ExpectedWithNew(config, base, seen, d);
      PendingWithNew(config, base, groups, suppressed, d);
      FinalizeLastError(groups, suppressed);
      var checkName := CheckName(d);
      var isError := false;
      if d.level.Error? || d.level.Fatal? {
        isError := true;
        lastErrorRelatesToUserCode := true;
        lastErrorPassesLineFilter := true;
      }
      var isWarningAsError := d.level.Warning? && checkName in config.warningsAsErrors;
      errors := errors +
        [FixConflicts.Error(checkName, isError, isWarningAsError, MessageOf(d), [], FixOf(d))];
      CheckFilters(d);
      seen := seen + [d];
    }

    /** Decides about the last error, removes duplicates, and hands the rest to the context. */
    method Finish() returns (ghost kept: seq<TidyError>)
      requires Valid() && FixConflicts.Representable(Shown(config, Groups(Blocks(seen))))
      modifies this
      ensures Valid() && seen == []
      ensures stats == base && base == old(base).Plus(Tally(config, Groups(Blocks(old(seen))))).Plus(
        Suppressions(CountSuppressed(Blocks(old(seen)))))
      ensures Deduplicated(Shown(config, Groups(Blocks(old(seen)))), kept)
      ensures |stored| == |old(stored)| + |kept| && stored[..|old(stored)|] == old(stored)
      ensures forall k :: 0 <= k < |kept| ==>
        var error := stored[|old(stored)| + k];
        && error.fix == (if FixConflicts.Applicable(kept, k) then kept[k].fix else [])
        && error.notes ==
             kept[k].notes + (if FixConflicts.Applicable(kept, k) then [] else [FixConflicts.OverlapsAnotherFix])
        && error.message == kept[k].message
        && error.checkName == kept[k].checkName
        && error.isError == kept[k].isError
        && error.isWarningAsError == kept[k].isWarningAsError
      ensures var from := stored[|old(stored)|..];
        forall k, n, l, m ::
          0 <= k < |from| && 0 <= n < |from[k].fix| && 0 <= l < |from| && 0 <= m < |from[l].fix| && (k, n) != (l, m) &&
          from[k].fix[n].length > 0 && from[l].fix[m].length > 0 ==>
          var p, q := from[k].fix[n], from[l].fix[m];
          p.path == q.path ==> p.offset + p.length <= q.offset || q.offset + q.length <= p.offset
    {
      hide Blocks, Groups, Accepted, CountSuppressed, Shown, Tally, VerdictOn, ErrorOf, RelatesToUserCode, PassesLines,
        Pending, Ignoring, InUserCode, OnListedLine;
      ghost var groups, suppressed := Groups(Blocks(seen)), CountSuppressed(Blocks(seen));
      FinalizeLastError(groups, suppressed);
      var sorted := SortErrors(errors);
      var unique := RemoveDuplicates(errors, sorted);
      kept := unique;
      KeptAreRepresentable(errors, unique);
      var resolved := FixConflicts.RemoveIncompatibleErrors(unique);
      NothingStoredClashes(unique, resolved);
      stored := stored + resolved;
      assert stored[|old(stored)|..] == resolved;
      errors := [];
      seen, base := [], stats;
      EmptyUnit(config, base);
    }
  }
}
