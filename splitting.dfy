/**
 * What the three versions of `split_excel_columns` share: the load outcome,
 * the error kinds, the part file names, and the sequence of writes of the
 * parts into the output directory, which stops at the first write that raises.
 */
module Splitting {
  import opened Tables
  import opened Partition
  import opened Naming
  import opened FileSystem

  /** The outcome of `pd.read_excel` on the input file. */
  datatype Source = Loaded(table: Table) | Unreadable

  datatype SplitError =
    | ReadFailed        // the input file could not be read as a spreadsheet
    | EmptyInput        // the sheet has no columns
    | DivisionByZero    // a column limit of 0 in `num_files`
    | WriteFailed(part: nat)  // writing part `part` (0-based) raised

  datatype Result<T> = Ok(value: T) | Err(error: SplitError)

  /** Output file names with the column range (web versions) or with the part number only (script). */
  datatype NameStyle = Ranged | Numbered

  /** One output file to write: its name and the sub-table it holds. */
  datatype Piece = Piece(name: string, table: Table)

  /** The directory entries after a run of writes, and whether it stopped at a piece whose write raised. */
  datatype Run = Finished(entries: map<string, Entry>) | Stopped(entries: map<string, Entry>, part: nat)

  /** The file name of part `i`. */
  function FileName(style: NameStyle, i: nat, width: nat, columns: nat): string
  {
    match style
    case Ranged => RangedName(i, PartStart(i, width), PartEnd(i, width, columns))
    case Numbered => NumberedName(i)
  }

  /** Every part name is relative: it starts with the letter `s`, not with `/`. */
  lemma FileNameIsRelative(style: NameStyle, i: nat, width: nat, columns: nat)
    ensures |FileName(style, i, width, columns)| > 0 && FileName(style, i, width, columns)[0] == 's'
  {
  }

  /** Distinct parts are written under distinct names, in either style. */
  lemma FileNamesDistinct(style: NameStyle, width: nat, columns: nat, i: nat, i': nat)
    requires i != i'
    ensures FileName(style, i, width, columns) != FileName(style, i', width, columns)
  {
    match style
    case Ranged =>
      RangedNamesDistinct(i, PartStart(i, width), PartEnd(i, width, columns),
                          i', PartStart(i', width), PartEnd(i', width, columns));
    case Numbered =>
      NumberedNamesDistinct(i, i');
  }

  /** The files one split writes, in part order: part `i` of `t` under its name. */
  function Pieces(t: Table, width: nat, style: NameStyle): (ps: seq<Piece>)
    requires t.WellFormed() && width >= 1
    ensures |ps| == NumParts(t.Columns(), width)
  {
    seq(NumParts(t.Columns(), width), i requires 0 <= i < NumParts(t.Columns(), width) =>
      Piece(FileName(style, i, width, t.Columns()), Part(t, width, i)))
  }

  predicate DistinctNames(ps: seq<Piece>)
  {
    forall i, j :: 0 <= i < j < |ps| ==> ps[i].name != ps[j].name
  }

  /**
   * One pass of the part loop, as all three versions write it: part `i`
   * spans columns `i * width` up to the smaller of `(i + 1) * width` and the
   * column count; it is sliced, named in `style` and saved with `outcome`.
   */
  method SavePart(t: Table, dir: Directory, width: nat, style: NameStyle, i: nat, outcome: WriteOutcome)
    returns (name: string, raised: bool)
    requires t.WellFormed() && width >= 1 && i < NumParts(t.Columns(), width)
    requires dir.Valid()
    modifies dir`entries
    ensures dir.Valid()
    ensures name == Pieces(t, width, style)[i].name
    ensures raised == SaveRaises(dir.present, old(dir.entries), name, outcome)
    ensures dir.entries == if raised then old(dir.entries)
                           else AfterSave(old(dir.entries), name, Pieces(t, width, style)[i].table, outcome)
  {
    var startCol := PartStart(i, width);
    var endCol := PartEnd(i, width, t.Columns());
    PartBounds(t.Columns(), width, i);
    var subTable := SliceColumns(t, startCol, endCol);
    name := match style
            case Ranged => RangedName(i, startCol, endCol)
            case Numbered => NumberedName(i);
    raised := dir.Save(name, subTable, outcome);
  }

  /** No two pieces of a split share a file name. */
  lemma PiecesHaveDistinctNames(t: Table, width: nat, style: NameStyle)
    requires t.WellFormed() && width >= 1
    ensures DistinctNames(Pieces(t, width, style))
  {
    var ps := Pieces(t, width, style);
    forall i, j | 0 <= i < j < |ps|
      ensures ps[i].name != ps[j].name
    {
      FileNamesDistinct(style, width, t.Columns(), i, j);
    }
  }

  /**
   * Writing pieces 0 .. k-1, in order, each `how(i)`, into a directory that
   * is `present` and starts with `entries`, stopping at the first write that
   * raises.
   */
  function WriteParts(ps: seq<Piece>, how: nat -> WriteOutcome, present: bool,
                      entries: map<string, Entry>, k: nat): (run: Run)
    requires k <= |ps|
    ensures run.Stopped? ==> run.part < k
  {
    if k == 0 then Finished(entries)
    else
      var prev := WriteParts(ps, how, present, entries, k - 1);
      if prev.Stopped? then prev
      else if SaveRaises(present, prev.entries, ps[k - 1].name, how(k - 1)) then Stopped(prev.entries, k - 1)
      else Finished(AfterSave(prev.entries, ps[k - 1].name, ps[k - 1].table, how(k - 1)))
  }

  /** One more step of a run that has not stopped: piece `k` is saved. */
  lemma WritePartsStep(ps: seq<Piece>, how: nat -> WriteOutcome, present: bool,
                       entries: map<string, Entry>, k: nat, current: map<string, Entry>)
    requires k < |ps|
    requires WriteParts(ps, how, present, entries, k) == Finished(current)
    ensures WriteParts(ps, how, present, entries, k + 1) ==
              if SaveRaises(present, current, ps[k].name, how(k)) then Stopped(current, k)
              else Finished(AfterSave(current, ps[k].name, ps[k].table, how(k)))
  {
  }

  /** How many pieces were written (or attempted without raising) in a run over `k` pieces. */
  function Attempted(run: Run, k: nat): nat
  {
    if run.Stopped? then run.part else k
  }

  /** The names of pieces 0 .. d-1. */
  ghost function Touched(ps: seq<Piece>, d: nat): set<string>
    requires d <= |ps|
  {
    set i | 0 <= i < d :: ps[i].name
  }

  /** Once a write has raised, the later pieces are not attempted. */
  lemma {:induction false} StoppedStays(ps: seq<Piece>, how: nat -> WriteOutcome, present: bool,
                                        entries: map<string, Entry>, j: nat, k: nat)
    requires j <= k <= |ps|
    requires WriteParts(ps, how, present, entries, j).Stopped?
    ensures WriteParts(ps, how, present, entries, k) == WriteParts(ps, how, present, entries, j)
    decreases k - j
  {
    if j < k {
      StoppedStays(ps, how, present, entries, j, k - 1);
    }
  }

  /** A missing directory makes the first write raise, so nothing is written. */
  lemma {:induction false} WriteIntoMissingDirectory(ps: seq<Piece>, how: nat -> WriteOutcome,
                                                    entries: map<string, Entry>, k: nat)
    requires 1 <= k <= |ps|
    ensures WriteParts(ps, how, false, entries, k) == Stopped(entries, 0)
  {
    if k > 1 {
      WriteIntoMissingDirectory(ps, how, entries, k - 1);
    }
  }

  /** The names of pieces that were not attempted are left as they were. */
  lemma {:induction false} WritePartsUntouched(ps: seq<Piece>, how: nat -> WriteOutcome, present: bool,
                                               entries: map<string, Entry>, k: nat, name: string)
    requires k <= |ps|
    requires name !in Touched(ps, Attempted(WriteParts(ps, how, present, entries, k), k))
    ensures var run := WriteParts(ps, how, present, entries, k);
            (name in run.entries <==> name in entries) && (name in entries ==> run.entries[name] == entries[name])
  {
    if k > 0 {
      var prev := WriteParts(ps, how, present, entries, k - 1);
      if prev.Finished? && !SaveRaises(present, prev.entries, ps[k - 1].name, how(k - 1)) {
        assert ps[k - 1].name in Touched(ps, k);
        assert Touched(ps, k - 1) <= Touched(ps, k);
      }
      WritePartsUntouched(ps, how, present, entries, k - 1, name);
    }
  }

  /**
   * A piece that was attempted without stopping the run did not raise: the
   * directory was there, the writer did not fail, and no folder held its name
   * at the start.
   */
  lemma {:induction false} AttemptedDidNotRaise(ps: seq<Piece>, how: nat -> WriteOutcome, present: bool,
                                                entries: map<string, Entry>, k: nat, i: nat)
    requires k <= |ps| && DistinctNames(ps)
    requires i < Attempted(WriteParts(ps, how, present, entries, k), k)
    ensures present && how(i) != Raised
    ensures !(ps[i].name in entries && entries[ps[i].name].Folder?)
  {
    var prev := WriteParts(ps, how, present, entries, k - 1);
    if i < Attempted(prev, k - 1) {
      AttemptedDidNotRaise(ps, how, present, entries, k - 1, i);
    } else {
      assert forall j :: 0 <= j < k - 1 ==> ps[j].name != ps[k - 1].name;
      WritePartsUntouched(ps, how, present, entries, k - 1, ps[k - 1].name);
    }
  }

  /**
   * Each attempted piece is, under its name, exactly its table when its file
   * was written, and absent when its file vanished.
   */
  lemma {:induction false} WritePartsStored(ps: seq<Piece>, how: nat -> WriteOutcome, present: bool,
                                            entries: map<string, Entry>, k: nat, i: nat)
    requires k <= |ps| && DistinctNames(ps)
    requires i < Attempted(WriteParts(ps, how, present, entries, k), k)
    ensures var run := WriteParts(ps, how, present, entries, k);
            && (how(i) == Written ==> ps[i].name in run.entries && run.entries[ps[i].name] == File(ps[i].table))
            && (how(i) == Vanished ==> ps[i].name !in run.entries)
  {
    var prev := WriteParts(ps, how, present, entries, k - 1);
    if i < Attempted(prev, k - 1) {
      WritePartsStored(ps, how, present, entries, k - 1, i);
    }
  }

  /** A run stops only at a piece whose write raises. */
  lemma {:induction false} WritePartsStopReason(ps: seq<Piece>, how: nat -> WriteOutcome, present: bool,
                                                entries: map<string, Entry>, k: nat)
    requires k <= |ps|
    requires WriteParts(ps, how, present, entries, k).Stopped?
    ensures var run := WriteParts(ps, how, present, entries, k);
            SaveRaises(present, run.entries, ps[run.part].name, how(run.part))
  {
    if WriteParts(ps, how, present, entries, k - 1).Stopped? {
      WritePartsStopReason(ps, how, present, entries, k - 1);
    }
  }

  /**
   * In a run over all parts that finished, the file of every written part
   * holds that part's columns, whatever held its name before.
   */
  lemma WrittenPartStored(t: Table, width: nat, style: NameStyle, how: nat -> WriteOutcome, present: bool,
                          entries: map<string, Entry>, i: nat)
    requires t.WellFormed() && width >= 1
    requires WriteParts(Pieces(t, width, style), how, present, entries, NumParts(t.Columns(), width)).Finished?
    requires i < NumParts(t.Columns(), width) && how(i) == Written
    ensures var after := WriteParts(Pieces(t, width, style), how, present, entries, NumParts(t.Columns(), width)).entries;
            var name := FileName(style, i, width, t.Columns());
            name in after && after[name] == File(Part(t, width, i))
  {
    var ps := Pieces(t, width, style);
    PiecesHaveDistinctNames(t, width, style);
    WritePartsStored(ps, how, present, entries, |ps|, i);
  }

  /**
   * The names of the pieces below `k` whose file was written, in part order:
   * what the loop collects into its result list.
   */
  function Reported(ps: seq<Piece>, how: nat -> WriteOutcome, k: nat): seq<string>
    requires k <= |ps|
  {
    if k == 0 then []
    else Reported(ps, how, k - 1) + (if how(k - 1) == Written then [ps[k - 1].name] else [])
  }

  /** At most one name is reported per piece, and every reported name is the name of a piece below `k`. */
  lemma {:induction false} ReportedFromPieces(ps: seq<Piece>, how: nat -> WriteOutcome, k: nat)
    requires k <= |ps|
    ensures |Reported(ps, how, k)| <= k
    ensures forall name :: name in Reported(ps, how, k) ==> name in Touched(ps, k)
  {
    if k > 0 {
      ReportedFromPieces(ps, how, k - 1);
      assert ps[k - 1].name in Touched(ps, k);
      assert Touched(ps, k - 1) <= Touched(ps, k);
    }
  }

  /**
   * With distinct names, a piece's name is reported exactly when the piece
   * lies below `k` and its file was written.
   */
  lemma {:induction false} ReportedNames(ps: seq<Piece>, how: nat -> WriteOutcome, k: nat)
    requires k <= |ps| && DistinctNames(ps)
    ensures forall i :: 0 <= i < |ps| ==> (ps[i].name in Reported(ps, how, k) <==> i < k && how(i) == Written)
  {
    if k > 0 {
      ReportedNames(ps, how, k - 1);
      forall i | 0 <= i < |ps|
        ensures ps[i].name in Reported(ps, how, k) <==> i < k && how(i) == Written
      {
        if i != k - 1 {
          assert ps[i].name != ps[k - 1].name;
        }
      }
    }
  }

  /** When every write succeeded, every name is reported, in part order. */
  lemma {:induction false} ReportedAllWritten(ps: seq<Piece>, how: nat -> WriteOutcome, k: nat)
    requires k <= |ps|
    requires forall i :: 0 <= i < k ==> how(i) == Written
    ensures Reported(ps, how, k) == seq(k, i requires 0 <= i < k => ps[i].name)
  {
    if k > 0 {
      ReportedAllWritten(ps, how, k - 1);
    }
  }

}
