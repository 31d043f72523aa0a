/**
 * The Flask version: `allowed_file`, the log buffer, `clear_directory`
 * (deletes regular files only) and `split_excel_columns`, which clears the
 * output directory first and returns the names of the parts whose file exists.
 */
module App {
  import opened Wrappers
  import opened Tables
  import opened Partition
  import opened Naming
  import opened FileSystem
  import opened Splitting

  // ---------------------------------------------------------------------
  // allowed_file

  /** No '.' after position `k` of `s`. */
  predicate NoDotAfter(s: string, k: nat)
  {
    forall j :: k < j < |s| ==> s[j] != '.'
  }

  /** The position of the last '.' in `s`, if any. */
  function LastDot(s: string): (r: Option<nat>)
    ensures r.None? ==> forall j :: 0 <= j < |s| ==> s[j] != '.'
    ensures r.Some? ==> r.value < |s| && s[r.value] == '.' && NoDotAfter(s, r.value)
  {
    if |s| == 0 then None
    else if s[|s| - 1] == '.' then Some(|s| - 1)
    else LastDot(s[..|s| - 1])
  }

  /** `str.lower()` on ASCII letters; other characters are kept. */
  function Lower(s: string): (r: string)
    ensures |r| == |s|
    ensures forall k :: 0 <= k < |r| ==> !('A' <= r[k] <= 'Z')
    ensures forall k :: 0 <= k < |s| && !('A' <= s[k] <= 'Z') ==> r[k] == s[k]
  {
    seq(|s|, k requires 0 <= k < |s| => if 'A' <= s[k] <= 'Z' then (s[k] as int + 32) as char else s[k])
  }

  /** Each upper-case letter becomes the letter at the same place of the lower-case alphabet. */
  lemma LowerByAlphabet(s: string, k: nat)
    requires k < |s| && 'A' <= s[k] <= 'Z'
    ensures Lower(s)[k] == "abcdefghijklmnopqrstuvwxyz"[s[k] as int - 'A' as int]
  {
  }

  /** Text without an upper-case letter is returned unchanged. */
  lemma LowerKeepsLowerCase(s: string)
    requires forall k :: 0 <= k < |s| ==> !('A' <= s[k] <= 'Z')
    ensures Lower(s) == s
  {
  }

  predicate IsExcelExtension(ext: string)
  {
    ext == "xlsx" || ext == "xls"
  }

  /**
   * `allowed_file`: the name has a '.', and the text after its last '.',
   * lower-cased, is `xlsx` or `xls`.
   */
  function AllowedFile(filename: string): (ok: bool)
    ensures ok <==> exists k :: 0 <= k < |filename| && filename[k] == '.' && NoDotAfter(filename, k)
                                  && IsExcelExtension(Lower(filename[k + 1..]))
  {
    match LastDot(filename)
    case None => false
    case Some(k) => IsExcelExtension(Lower(filename[k + 1..]))
  }

  /** Lower-casing a prefix is taking the prefix of the lower-cased text. */
  lemma LowerPrefix(s: string, k: nat)
    requires k <= |s|
    ensures Lower(s[..k]) == Lower(s)[..k]
  {
  }

  /** Lower-casing a suffix is taking the suffix of the lower-cased text. */
  lemma LowerSuffix(s: string, k: nat)
    requires k <= |s|
    ensures Lower(s[k..]) == Lower(s)[k..]
  {
  }

  /** Lower-cased text has nothing left to lower-case. */
  lemma LowerIdempotent(s: string)
    ensures Lower(Lower(s)) == Lower(s)
  {
    LowerKeepsLowerCase(Lower(s));
  }

  /** Lower-casing moves no '.': the last one is where it was. */
  lemma {:induction false} LastDotOfLower(s: string)
    ensures LastDot(Lower(s)) == LastDot(s)
  {
    if |s| > 0 && s[|s| - 1] != '.' {
      LowerPrefix(s, |s| - 1);
      LastDotOfLower(s[..|s| - 1]);
    }
  }

  /**
   * `allowed_file` ignores ASCII case: a name is accepted exactly when its
   * lower-cased form is, so `report.XLSX` and `report.xlsx` are treated alike.
   */
  lemma AllowedFileIgnoresCase(filename: string)
    ensures AllowedFile(Lower(filename)) == AllowedFile(filename)
  {
    LastDotOfLower(filename);
    match LastDot(filename)
    case None =>
    case Some(k) =>
      LowerSuffix(filename, k + 1);
      LowerIdempotent(filename[k + 1..]);
  }

  // ---------------------------------------------------------------------
  // LogStream

  /** `self.logs[-limit:]` with Python's slice rules, as the code has it. */
  function TailAsWritten(logs: seq<string>, limit: int): (r: seq<string>)
    ensures |r| <= |logs|
    ensures r == logs[|logs| - |r|..]
    ensures limit > 0 ==> |r| == Min(limit, |logs|)
    ensures limit == 0 ==> r == logs
    ensures limit < 0 ==> |r| == |logs| - Min(-limit, |logs|)
  {
    var start := if -limit < 0 then (if |logs| - limit < 0 then 0 else |logs| - limit) else Min(-limit, |logs|);
    logs[start..]
  }

  /** The most recent `limit` entries, or all of them when there are fewer. */
  function Tail(logs: seq<string>, limit: nat): (r: seq<string>)
    ensures |r| == Min(limit, |logs|)
    ensures r == logs[|logs| - |r|..]
  {
    logs[|logs| - Min(limit, |logs|)..]
  }

  /** For every positive limit the code as written returns the most recent `limit` entries. */
  lemma TailAsWrittenAgrees(logs: seq<string>, limit: nat)
    requires limit > 0
    ensures TailAsWritten(logs, limit) == Tail(logs, limit)
  {
  }

  /** A limit of 0 returns every entry of a non-empty buffer instead of none: `logs[-0:]` is `logs[0:]`. */
  lemma TailAsWrittenZeroLimit(logs: seq<string>)
    requires |logs| > 0
    ensures TailAsWritten(logs, 0) == logs
    ensures Tail(logs, 0) == []
    ensures TailAsWritten(logs, 0) != Tail(logs, 0)
  {
  }

  /** The log buffer: messages in the order they were written (timestamps are not modelled). */
  class LogStream {
    var logs: seq<string>

    constructor ()
      ensures logs == []
    {
      logs := [];
    }

    /** `write`: appends the message. */
    method Write(msg: string)
      modifies this
      ensures logs == old(logs) + [msg]
    {
      logs := logs + [msg];
    }

    /** `get_logs(limit)` as written. */
    function GetLogs(limit: int := 100): (r: seq<string>)
      reads this
      ensures |r| <= |logs| && r == logs[|logs| - |r|..]
      ensures limit > 0 ==> |r| == Min(limit, |logs|)
      ensures limit == 0 ==> r == logs
    {
      TailAsWritten(logs, limit)
    }

    /** `get_logs(limit)` as its comment describes it: the most recent `limit` entries. */
    function RecentLogs(limit: nat := 100): (r: seq<string>)
      reads this
      ensures |r| == Min(limit, |logs|) && r == logs[|logs| - |r|..]
    {
      Tail(logs, limit)
    }
  }

  // ---------------------------------------------------------------------
  // clear_directory

  /**
   * `clear_directory`: unlinks every regular file of the directory and
   * leaves every other entry alone; listing a missing directory raises.
   */
  method ClearDirectory(dir: Directory) returns (listed: bool)
    requires dir.Valid()
    modifies dir`entries
    ensures dir.Valid()
    ensures listed == dir.present
    ensures dir.entries == if listed then NonFiles(old(dir.entries)) else old(dir.entries)
  {
    if !dir.Exists() {
      return false;
    }
    var pending := dir.ListDir();
    while pending != {}
      invariant dir.Valid() && dir.present
      invariant pending <= old(dir.entries).Keys
      invariant forall name :: name in dir.entries <==>
                  name in old(dir.entries) && (name in pending || old(dir.entries)[name].Folder?)
      invariant forall name :: name in dir.entries ==> dir.entries[name] == old(dir.entries)[name]
      decreases pending
    {
      var name :| name in pending;
      if dir.IsFile(name) {
        dir.Unlink(name);
      }
      pending := pending - {name};
    }
    assert dir.entries.Keys == NonFiles(old(dir.entries)).Keys;
    return true;
  }

  // ---------------------------------------------------------------------
  // split_excel_columns

  /**
   * `split_excel_columns`: read the sheet, refuse zero columns, compute the
   * part count, create and clear the output directory, then write each part
   * and collect the names of those whose file exists. Any error is re-raised.
   */
  method SplitExcelColumns(source: Source, dir: Directory, how: nat -> WriteOutcome, maxColumns: nat := 4900)
    returns (r: Result<seq<string>>)
    requires dir.Valid()
    requires source.Loaded? ==> source.table.WellFormed()
    modifies dir
    ensures dir.Valid()
    ensures source.Unreadable? ==> r == Err(ReadFailed) && unchanged(dir)
    ensures source.Loaded? && source.table.Columns() == 0 ==> r == Err(EmptyInput) && unchanged(dir)
    ensures source.Loaded? && source.table.Columns() > 0 && maxColumns == 0 ==> r == Err(DivisionByZero) && unchanged(dir)
    ensures source.Loaded? && source.table.Columns() > 0 && maxColumns > 0 ==>
              var ps := Pieces(source.table, maxColumns, Ranged);
              var run := WriteParts(ps, how, true, NonFiles(old(dir.entries)), |ps|);
              && dir.present && dir.entries == run.entries
              && r == match run
                      case Stopped(_, part) => Err(WriteFailed(part))
                      case Finished(_) => Ok(Reported(ps, how, |ps|))
  {
    if source.Unreadable? {
      return Err(ReadFailed);
    }
    var t := source.table;
    var total := |t.headers|;
    if total == 0 {
      return Err(EmptyInput);
    }
    if maxColumns == 0 {
      return Err(DivisionByZero);
    }
    var numFiles := (total + maxColumns - 1) / maxColumns;
    dir.MakeDirs();
    var _ := ClearDirectory(dir);
    var stoppedAt, outputFiles := WriteEachPart(t, dir, maxColumns, numFiles, how);
    if stoppedAt.Some? {
      return Err(WriteFailed(stoppedAt.value));
    }
    return Ok(outputFiles);
  }

  /**
   * The part loop of `split_excel_columns`: slice, name and save each part in
   * turn, keeping the name of each part whose file exists afterwards; a
   * write that raises ends the loop.
   */
  method WriteEachPart(t: Table, dir: Directory, maxColumns: nat, numFiles: nat, how: nat -> WriteOutcome)
    returns (stoppedAt: Option<nat>, outputFiles: seq<string>)
    requires t.WellFormed() && maxColumns >= 1 && numFiles == NumParts(t.Columns(), maxColumns)
    requires dir.Valid() && dir.present
    modifies dir`entries
    ensures dir.Valid()
    ensures var ps := Pieces(t, maxColumns, Ranged);
            var run := WriteParts(ps, how, true, old(dir.entries), |ps|);
            && dir.entries == run.entries
            && stoppedAt == (if run.Stopped? then Some(run.part) else None)
            && (run.Finished? ==> outputFiles == Reported(ps, how, |ps|))
  {
    ghost var ps := Pieces(t, maxColumns, Ranged);
    outputFiles := [];
    var i := 0;
    while i < numFiles
      invariant 0 <= i <= numFiles == |ps|
      invariant dir.Valid() && dir.present
      invariant WriteParts(ps, how, true, old(dir.entries), i) == Finished(dir.entries)
      invariant outputFiles == Reported(ps, how, i)
    {
      var outcome := how(i);
      WritePartsStep(ps, how, true, old(dir.entries), i, dir.entries);
      var outputFilename, raised := SavePart(t, dir, maxColumns, Ranged, i, outcome);
      if raised {
        StoppedStays(ps, how, true, old(dir.entries), i + 1, numFiles);
        return Some(i), outputFiles;
      }
      if dir.Contains(outputFilename) {
        outputFiles := outputFiles + [outputFilename];
      }
      i := i + 1;
    }
    return None, outputFiles;
  }

  /** The directory entries after a split whose writes started from `before` with its regular files removed. */
  ghost function EntriesAfterSplit(t: Table, width: nat, how: nat -> WriteOutcome, before: map<string, Entry>): map<string, Entry>
    requires t.WellFormed() && width >= 1
  {
    var ps := Pieces(t, width, Ranged);
    WriteParts(ps, how, true, NonFiles(before), |ps|).entries
  }

  /** A split that ran to the end. */
  ghost predicate SplitFinished(t: Table, width: nat, how: nat -> WriteOutcome, before: map<string, Entry>)
    requires t.WellFormed() && width >= 1
  {
    var ps := Pieces(t, width, Ranged);
    WriteParts(ps, how, true, NonFiles(before), |ps|).Finished?
  }

  /** After a split that succeeds, the regular files of the output directory are exactly the returned names. */
  lemma SplitFilesAreReported(t: Table, width: nat, how: nat -> WriteOutcome, before: map<string, Entry>, name: string)
    requires t.WellFormed() && width >= 1 && SplitFinished(t, width, how, before)
    ensures var after := EntriesAfterSplit(t, width, how, before);
            name in after && after[name].File? <==> name in Reported(Pieces(t, width, Ranged), how, NumParts(t.Columns(), width))
  {
    var ps := Pieces(t, width, Ranged);
    var n := |ps|;
    PiecesHaveDistinctNames(t, width, Ranged);
    ReportedNames(ps, how, n);
    ReportedFromPieces(ps, how, n);
    if name in Touched(ps, n) {
      var i :| 0 <= i < n && name == ps[i].name;
      WritePartsStored(ps, how, true, NonFiles(before), n, i);
      AttemptedDidNotRaise(ps, how, true, NonFiles(before), n, i);
    } else {
      WritePartsUntouched(ps, how, true, NonFiles(before), n, name);
    }
  }

  /** After a split that succeeds, the file of every written part holds that part's columns. */
  lemma SplitPartContents(t: Table, width: nat, how: nat -> WriteOutcome, before: map<string, Entry>, i: nat)
    requires t.WellFormed() && width >= 1 && SplitFinished(t, width, how, before)
    requires i < NumParts(t.Columns(), width) && how(i) == Written
    ensures var after, name := EntriesAfterSplit(t, width, how, before), RangedName(i, PartStart(i, width), PartEnd(i, width, t.Columns()));
            name in after && after[name] == File(Part(t, width, i))
  {
    WrittenPartStored(t, width, Ranged, how, true, NonFiles(before), i);
  }

  /** A split, whether or not it succeeds, leaves every entry that is not a regular file as it was. */
  lemma SplitKeepsFolders(t: Table, width: nat, how: nat -> WriteOutcome, before: map<string, Entry>, name: string)
    requires t.WellFormed() && width >= 1
    ensures var after := EntriesAfterSplit(t, width, how, before);
            name in after && after[name].Folder? <==> name in before && before[name].Folder?
  {
    var ps := Pieces(t, width, Ranged);
    var run := WriteParts(ps, how, true, NonFiles(before), |ps|);
    if name in Touched(ps, Attempted(run, |ps|)) {
      var i :| 0 <= i < Attempted(run, |ps|) && name == ps[i].name;
      PiecesHaveDistinctNames(t, width, Ranged);
      WritePartsStored(ps, how, true, NonFiles(before), |ps|, i);
      AttemptedDidNotRaise(ps, how, true, NonFiles(before), |ps|, i);
    } else {
      WritePartsUntouched(ps, how, true, NonFiles(before), |ps|, name);
    }
  }
}
