/** What the counters of a translation unit add up to, and what becomes of errors and of notes. */
module DiagnosticCounts {

  import FixConflicts
  import opened Wrappers
  import opened Diagnostics

  function NonNotes(ds: seq<Diagnostic>): nat {
    if ds == [] then 0 else NonNotes(ds[..|ds| - 1]) + (if ds[|ds| - 1].level.Note? then 0 else 1)
  }

  /** Blocks whose first diagnostic is accepted, and a note suppressed. */
  function CountCutShort(blocks: seq<seq<Diagnostic>>): nat {
    if blocks == [] then
      0
    else
      var block := blocks[|blocks| - 1];
      CountCutShort(blocks[..|blocks| - 1]) + (if Accepted(block) != [] && Accepted(block) != block then 1 else 0)
  }

  function Concatenated(blocks: seq<seq<Diagnostic>>): seq<Diagnostic> {
    if blocks == [] then [] else Concatenated(blocks[..|blocks| - 1]) + blocks[|blocks| - 1]
  }

  /** A diagnostic that is not a note, and notes. */
  predicate IsBlock(block: seq<Diagnostic>) {
    block != [] && !block[0].level.Note? && forall n :: 0 < n < |block| ==> block[n].level.Note?
  }

  /** The blocks cut a unit in front of every diagnostic that is not a note. */
  lemma {:induction false} BlocksPartition(ds: seq<Diagnostic>)
    requires ds != [] ==> !ds[0].level.Note?
    ensures Concatenated(Blocks(ds)) == ds
    ensures |Blocks(ds)| == NonNotes(ds)
    ensures forall n :: 0 <= n < |Blocks(ds)| ==> IsBlock(Blocks(ds)[n])
  {
    if ds != [] {
      var before, d := ds[..|ds| - 1], ds[|ds| - 1];
      BlocksPartition(before);
      assert ds == before + [d];
      BlocksOneMore(before, d);
      var blocks, after := Blocks(before), Blocks(ds);
      if d.level.Note? {
        var m := |blocks| - 1;
        assert after[..m] == blocks[..m];
        assert Concatenated(after) == Concatenated(blocks[..m]) + (blocks[m] + [d]);
        forall n | 0 <= n < |after|
          ensures IsBlock(after[n])
        {
          assert IsBlock(blocks[n]);
        }
      } else {
        assert after[..|blocks|] == blocks;
        forall n | 0 <= n < |after|
          ensures IsBlock(after[n])
        {
          assert n < |blocks| ==> IsBlock(blocks[n]);
        }
      }
    }
  }

  lemma {:induction false} TallyCountsGroups(config: Config, groups: seq<Group>)
    ensures Tally(config, groups).Decided() == |groups|
    ensures Tally(config, groups).displayed == |Shown(config, groups)|
    ensures Tally(config, groups).noLint == 0
  {
    if groups != [] {
      TallyCountsGroups(config, groups[..|groups| - 1]);
    }
  }

  lemma {:induction false} SuppressionsCountBlocks(blocks: seq<seq<Diagnostic>>)
    requires forall n :: 0 <= n < |blocks| ==> IsBlock(blocks[n])
    ensures |Groups(blocks)| + CountSuppressed(blocks) == |blocks| + CountCutShort(blocks)
  {
    if blocks != [] {
      var m := |blocks| - 1;
      SuppressionsCountBlocks(blocks[..m]);
      assert IsBlock(blocks[m]);
    }
  }

  /**
    Every diagnostic that is not a note is counted once among those displayed, dropped by one of the
    three filters, or suppressed; and once more for each accepted one of whose notes is suppressed.
    */
  lemma EveryDiagnosticIsCounted(config: Config, ds: seq<Diagnostic>)
    requires ds != [] ==> !ds[0].level.Note?
    ensures var tally := Tally(config, Groups(Blocks(ds)));
      && tally.Decided() + CountSuppressed(Blocks(ds)) == NonNotes(ds) + CountCutShort(Blocks(ds))
      && tally.displayed == |Shown(config, Groups(Blocks(ds)))|
  {
    hide Blocks, Groups, Tally, Shown, CountSuppressed, CountCutShort, NonNotes, Accepted;
    BlocksPartition(ds);
    TallyCountsGroups(config, Groups(Blocks(ds)));
    SuppressionsCountBlocks(Blocks(ds));
  }

  /** Nothing is suppressed, or the first diagnostic of the block is. */
  predicate AllOrFirst(block: seq<Diagnostic>) {
    (block != [] && Suppressed(block[0])) || forall d <- block :: !Suppressed(d)
  }

  /** The counters equal the number of diagnostics exactly if no accepted diagnostic loses a note that way. */
  lemma CountedOnce(config: Config, ds: seq<Diagnostic>)
    requires ds != [] ==> !ds[0].level.Note?
    ensures Tally(config, Groups(Blocks(ds))).Decided() + CountSuppressed(Blocks(ds)) == NonNotes(ds) <==>
      forall n :: 0 <= n < |Blocks(ds)| ==> AllOrFirst(Blocks(ds)[n])
  {
    hide Blocks, Groups, Tally, Shown, CountSuppressed, CountCutShort, NonNotes, Accepted, AllOrFirst, Suppressed;
    EveryDiagnosticIsCounted(config, ds);
    BlocksPartition(ds);
    CutShortBySuppressed(Blocks(ds));
  }

  // A diagnostic on a line of the main file that is marked or not.
  function OnLine(level: Level, marked: bool): Diagnostic {
    Diagnostic(level, At([marked], false, None, true, 1, "file", 0), "", "check", "text", [])
  }

  lemma OneBlock(warning: Diagnostic, note: Diagnostic)
    requires !warning.level.Note? && note.level.Note?
    ensures Blocks([warning, note]) == [[warning, note]]
  {
    assert [] + [warning] == [warning] && [warning] + [note] == [warning, note];
    BlocksOneMore([], warning);
    BlocksOneMore([warning], note);
  }

  lemma OneIsNoNote(warning: Diagnostic, note: Diagnostic)
    requires !warning.level.Note? && note.level.Note?
    ensures NonNotes([warning, note]) == 1
  {
    var one := [warning];
    assert one[..0] == [] && NonNotes(one) == NonNotes(one[..0]) + 1;
    assert [warning, note][..1] == one;
  }

  lemma CutShortOnce(block: seq<Diagnostic>)
    ensures CountCutShort([block]) == if Accepted(block) != [] && Accepted(block) != block then 1 else 0
  {
    var blocks := [block];
    assert blocks[..0] == [];
  }

  /** A warning with a note on a marked line: the one diagnostic is counted twice. */
  lemma MarkedNote(config: Config)
    ensures var ds := [OnLine(Warning, false), OnLine(Note, true)];
      NonNotes(ds) == 1 && Tally(config, Groups(Blocks(ds))).Decided() + CountSuppressed(Blocks(ds)) == 2
  {
    hide Blocks, Groups, Tally, CountSuppressed, CountCutShort, NonNotes, Accepted, Suppressed;
    var warning, note := OnLine(Warning, false), OnLine(Note, true);
    OneBlock(warning, note);
    OneIsNoNote(warning, note);
    CutShortOnce([warning, note]);
    NoteIsCut(warning, note);
    EveryDiagnosticIsCounted(config, [warning, note]);
  }

  lemma NoteIsCut(warning: Diagnostic, note: Diagnostic)
    requires warning == OnLine(Warning, false) && note == OnLine(Note, true)
    ensures Accepted([warning, note]) == [warning]
  {
    assert [warning, note][1..] == [note];
    assert Suppressed(note) && !Suppressed(warning);
  }

  lemma {:induction false} CutShortBySuppressed(blocks: seq<seq<Diagnostic>>)
    requires forall n :: 0 <= n < |blocks| ==> IsBlock(blocks[n])
    ensures CountCutShort(blocks) == 0 <==>
      forall n :: 0 <= n < |blocks| ==> AllOrFirst(blocks[n])
  {
    if blocks != [] {
      var m := |blocks| - 1;
      CutShortBySuppressed(blocks[..m]);
      assert IsBlock(blocks[m]);
      AcceptedWhole(blocks[m]);
    }
  }

  lemma {:induction false} AcceptedWhole(block: seq<Diagnostic>)
    ensures Accepted(block) == block <==> forall d <- block :: !Suppressed(d)
    ensures Accepted(block) != [] <==> block != [] && !Suppressed(block[0])
    ensures Accepted(block) <= block
  {
    if block != [] {
      AcceptedWhole(block[1..]);
      assert block == [block[0]] + block[1..];
    }
  }

  /** A compiler error is never suppressed, never filtered, and always among the displayed ones. */
  lemma {:induction false} ErrorsAreDisplayed(config: Config, blocks: seq<seq<Diagnostic>>, n: nat)
    requires n < |blocks| && IsBlock(blocks[n]) && IsError(blocks[n][0])
    ensures Accepted(blocks[n]) != [] && Accepted(blocks[n])[0] == blocks[n][0]
    ensures VerdictOn(config, Accepted(blocks[n])) == Displayed
    ensures ErrorOf(config, Accepted(blocks[n])) in Shown(config, Groups(blocks))
  {
    var m, accepted := |blocks| - 1, Accepted(blocks[n]);
    assert !Suppressed(blocks[n][0]);
    var before, groups := Groups(blocks[..m]), Groups(blocks);
    if n < m {
      ErrorsAreDisplayed(config, blocks[..m], n);
      ShownGrows(config, before, groups[|before|..]);
      assert groups == before + groups[|before|..];
    } else {
      assert groups[..|groups| - 1] == before;
    }
  }

  lemma {:induction false} ShownGrows(config: Config, groups: seq<Group>, more: seq<Group>)
    ensures Shown(config, groups) <= Shown(config, groups + more)
    decreases |more|
  {
    if more == [] {
      assert groups + more == groups;
    } else {
      ShownGrows(config, groups, more[..|more| - 1]);
      assert (groups + more)[..|groups + more| - 1] == groups + more[..|more| - 1];
    }
  }

  function MessagesOf(notes: seq<Diagnostic>): seq<FixConflicts.Note> {
    if notes == [] then []
    else MessagesOf(notes[..|notes| - 1]) + [FixConflicts.Attached(MessageOf(notes[|notes| - 1]))]
  }

  /** An error carries its own message and exactly the accepted notes that followed it, in order. */
  lemma {:induction false} NotesStayWithTheirError(config: Config, group: Group)
    ensures ErrorOf(config, group).message == MessageOf(group[0])
    ensures ErrorOf(config, group).notes == MessagesOf(group[1..])
    decreases |group|
  {
    if |group| > 1 {
      var before := group[..|group| - 1];
      NotesStayWithTheirError(config, before);
      assert group[1..][..|group| - 2] == before[1..];
    }
  }
}
