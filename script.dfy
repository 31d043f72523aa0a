/**
 * The command-line script: `split_excel_columns` creates the output
 * directory if needed, never clears it, writes every part under the short
 * name `split_part_<n>.xlsx` and returns nothing; errors propagate.
 */
module Script {
  import opened Wrappers
  import opened Tables
  import opened Partition
  import opened Naming
  import opened FileSystem
  import opened Splitting

  /**
   * `split_excel_columns`: read the sheet, compute the part count (with no
   * zero-column check), create the directory, then write each part. The
   * result is the error that propagates, if any.
   */
  method SplitExcelColumns(source: Source, dir: Directory, how: nat -> WriteOutcome, maxColumns: nat := 4900)
    returns (err: Option<SplitError>)
    requires dir.Valid()
    requires source.Loaded? ==> source.table.WellFormed()
    modifies dir
    ensures dir.Valid()
    ensures source.Unreadable? ==> err == Some(ReadFailed) && unchanged(dir)
    ensures source.Loaded? && maxColumns == 0 ==> err == Some(DivisionByZero) && unchanged(dir)
    ensures source.Loaded? && maxColumns > 0 ==>
              var ps := Pieces(source.table, maxColumns, Numbered);
              var run := WriteParts(ps, how, true, old(dir.entries), |ps|);
              && dir.present && dir.entries == run.entries
              && err == if run.Stopped? then Some(WriteFailed(run.part)) else None
  {
    if source.Unreadable? {
      return Some(ReadFailed);
    }
    var df := source.table;
    var totalColumns := |df.headers|;
    if maxColumns == 0 {
      return Some(DivisionByZero);
    }
    var numFiles := (totalColumns + maxColumns - 1) / maxColumns;
    dir.MakeDirs();
    ghost var ps, start := Pieces(df, maxColumns, Numbered), dir.entries;
    var i := 0;
    while i < numFiles
      invariant 0 <= i <= numFiles == |ps|
      invariant dir.Valid() && dir.present
      invariant WriteParts(ps, how, true, start, i) == Finished(dir.entries)
    {
      var outcome := how(i);
      WritePartsStep(ps, how, true, start, i, dir.entries);
      var outputFile, raised := SavePart(df, dir, maxColumns, Numbered, i, outcome);
      if raised {
        StoppedStays(ps, how, true, start, i + 1, numFiles);
        return Some(WriteFailed(i));
      }
      i := i + 1;
    }
    return None;
  }

  /** A sheet with no columns gives no parts: nothing is written and nothing raises. */
  lemma ZeroColumnsWritesNothing(t: Table, width: nat, how: nat -> WriteOutcome, entries: map<string, Entry>)
    requires t.WellFormed() && width >= 1 && t.Columns() == 0
    ensures var ps := Pieces(t, width, Numbered);
            |ps| == 0 && WriteParts(ps, how, true, entries, |ps|) == Finished(entries)
  {
    NumPartsIsCeiling(t.Columns(), width);
  }

  /**
   * The directory is not cleared: an entry whose name is not the name of any
   * part is left exactly as it was, whether or not the run finished.
   */
  lemma OtherEntriesKept(t: Table, width: nat, how: nat -> WriteOutcome, entries: map<string, Entry>, name: string)
    requires t.WellFormed() && width >= 1
    requires forall i :: 0 <= i < NumParts(t.Columns(), width) ==> name != NumberedName(i)
    ensures var after := WriteParts(Pieces(t, width, Numbered), how, true, entries, NumParts(t.Columns(), width)).entries;
            (name in after <==> name in entries) && (name in entries ==> after[name] == entries[name])
  {
    var ps := Pieces(t, width, Numbered);
    var run := WriteParts(ps, how, true, entries, |ps|);
    assert name !in Touched(ps, Attempted(run, |ps|));
    WritePartsUntouched(ps, how, true, entries, |ps|, name);
  }

  /**
   * When every part is written, each `split_part_<n>.xlsx` holds part n-1,
   * replacing any file of that name left by an earlier run.
   */
  lemma SameNamedFilesOverwritten(t: Table, width: nat, how: nat -> WriteOutcome, entries: map<string, Entry>, i: nat)
    requires t.WellFormed() && width >= 1
    requires WriteParts(Pieces(t, width, Numbered), how, true, entries, NumParts(t.Columns(), width)).Finished?
    requires i < NumParts(t.Columns(), width) && how(i) == Written
    ensures var after := WriteParts(Pieces(t, width, Numbered), how, true, entries, NumParts(t.Columns(), width)).entries;
            NumberedName(i) in after && after[NumberedName(i)] == File(Part(t, width, i))
  {
    WrittenPartStored(t, width, Numbered, how, true, entries, i);
  }
}
