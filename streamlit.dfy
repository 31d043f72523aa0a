/**
 * The Streamlit version: `clear_directory` removes the output directory with
 * everything in it and recreates it, and `split_excel_columns` writes into
 * the directory as it finds it, returns the full path of every part, and
 * turns any error into the empty list.
 */
module Streamlit {
  import opened Tables
  import opened Partition
  import opened Naming
  import opened FileSystem
  import opened Splitting

  /** `clear_directory`: afterwards the directory exists and is empty, sub-directories included. */
  method ClearDirectory(dir: Directory)
    requires dir.Valid()
    modifies dir
    ensures dir.Valid() && dir.present && dir.entries == map[]
  {
    if dir.Exists() {
      dir.RemoveTree();
    }
    dir.MakeDirs();
  }

  /** The paths of pieces 0 .. k-1, in part order: `os.path.join(output_dir, name)` of each. */
  function OutputPaths(directory: string, ps: seq<Piece>, k: nat): (paths: seq<string>)
    requires k <= |ps|
    ensures |paths| == k
    ensures forall i :: 0 <= i < k ==> paths[i] == JoinPath(directory, ps[i].name)
  {
    if k == 0 then [] else OutputPaths(directory, ps, k - 1) + [JoinPath(directory, ps[k - 1].name)]
  }

  /** The paths of a split are pairwise distinct, so every part has a path of its own. */
  lemma OutputPathsDistinct(directory: string, t: Table, width: nat, i: nat, j: nat)
    requires t.WellFormed() && width >= 1
    requires i < j < NumParts(t.Columns(), width)
    ensures var ps := Pieces(t, width, Ranged);
            OutputPaths(directory, ps, |ps|)[i] != OutputPaths(directory, ps, |ps|)[j]
  {
    var a, b := FileName(Ranged, i, width, t.Columns()), FileName(Ranged, j, width, t.Columns());
    assert a[0] == 's' && b[0] == 's';
    FileNamesDistinct(Ranged, width, t.Columns(), i, j);
    JoinPathInjective(directory, a, b);
  }

  /**
   * `split_excel_columns`: read the sheet, refuse zero columns, compute the
   * part count, then write each part into the directory and collect its
   * path. Any exception is caught and gives the empty list; parts already
   * written stay on disk.
   */
  method SplitExcelColumns(source: Source, dir: Directory, how: nat -> WriteOutcome, maxColumns: nat := 4900)
    returns (outputFiles: seq<string>)
    requires dir.Valid()
    requires source.Loaded? ==> source.table.WellFormed()
    modifies dir`entries
    ensures dir.Valid()
    ensures source.Unreadable? || source.table.Columns() == 0 || maxColumns == 0 ==>
              outputFiles == [] && dir.entries == old(dir.entries)
    ensures source.Loaded? && source.table.Columns() > 0 && maxColumns > 0 ==>
              var ps := Pieces(source.table, maxColumns, Ranged);
              var run := WriteParts(ps, how, dir.present, old(dir.entries), |ps|);
              && dir.entries == run.entries
              && outputFiles == if run.Stopped? then [] else OutputPaths(dir.path, ps, |ps|)
  {
    if source.Unreadable? {
      return [];
    }
    var t := source.table;
    var total := |t.headers|;
    if total == 0 {
      return [];
    }
    if maxColumns == 0 {
      return [];
    }
    var numFiles := (total + maxColumns - 1) / maxColumns;
    ghost var ps, present, start := Pieces(t, maxColumns, Ranged), dir.present, dir.entries;
    outputFiles := [];
    var i := 0;
    while i < numFiles
      invariant 0 <= i <= numFiles == |ps|
      invariant dir.Valid() && dir.present == present
      invariant i > 0 ==> present
      invariant WriteParts(ps, how, true, start, i) == Finished(dir.entries)
      invariant outputFiles == OutputPaths(dir.path, ps, i)
    {
      var outcome := how(i);
      WritePartsStep(ps, how, true, start, i, dir.entries);
      var outputFilename, raised := SavePart(t, dir, maxColumns, Ranged, i, outcome);
      FileNameIsRelative(Ranged, i, maxColumns, t.Columns());
      var outputPath := JoinPath(dir.path, outputFilename);
      if raised {
        if present {
          StoppedStays(ps, how, true, start, i + 1, numFiles);
        } else {
          WriteIntoMissingDirectory(ps, how, start, numFiles);
        }
        return [];
      }
      outputFiles := outputFiles + [outputPath];
      i := i + 1;
    }
  }

  /** Into a directory that does not exist the first write raises, so a sheet with columns gives the empty list. */
  lemma MissingDirectoryGivesNothing(t: Table, width: nat, how: nat -> WriteOutcome, entries: map<string, Entry>)
    requires t.WellFormed() && width >= 1 && t.Columns() > 0
    ensures WriteParts(Pieces(t, width, Ranged), how, false, entries, NumParts(t.Columns(), width)) == Stopped(entries, 0)
  {
    NumPartsIsCeiling(t.Columns(), width);
    WriteIntoMissingDirectory(Pieces(t, width, Ranged), how, entries, NumParts(t.Columns(), width));
  }
}
