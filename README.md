# Excel column splitter: a verified model

This project models the column splitter of a small spreadsheet tool. The
tool reads the first sheet of a spreadsheet into a table of headers and
rows. It cuts the columns into consecutive parts of at most `max_columns`
columns and writes each part to its own `.xlsx` file in an output
directory.

The routine `split_excel_columns` exists in three versions, each modelled on
its own:

- **App**: the Flask application (`app.py`). It refuses a sheet without
  columns before it touches the disk. It creates the output directory and
  deletes its regular files. It writes each part and returns the names of
  the parts whose file exists afterwards. It re-raises every error.
  - It also has `allowed_file`, the upload extension check.
  - It also has `clear_directory`, which deletes regular files only.
  - It also has the `LogStream` buffer that collects console output
    (`write` and `get_logs`).
- **Streamlit**: the dashboard (`streamlit_app.py`). It writes into the
  directory as it finds it and returns the full path of every part without
  checking it. Any error becomes the empty list. Its `clear_directory`
  removes the whole directory and recreates it.
- **Script**: the command-line version (`script.py`). It has no
  zero-column check and never clears the directory. It uses the short
  names `split_part_<n>.xlsx` and returns nothing.

The modules are:

- `Tables`: the table, and column slicing (`df.iloc[:, lo:hi]`).
- `Partition`: the part count, the part ranges, and the round trip by
  concatenation.
- `Naming`: decimal rendering, the two file name formats, and
  `os.path.join`.
- `FileSystem`: the output directory as a class whose methods change its
  entries.
- `Splitting`: what the three versions share.
  - The load outcome and the error kinds.
  - The sequence of writes, `WriteParts`, which stops at the first write
    that raises.
  - One pass of the part loop, `SavePart`.
- `App`, `Streamlit` and `Script`: the three versions, as methods with
  loops over the parts.

Spreadsheet reading is an input value:

- A `Source` is either the loaded table or `Unreadable`.

Each `to_excel` call is represented by an outcome, `how(i)` for part `i`:

- `Written`: the file is there afterwards.
- `Vanished`: the call returned, but no file is there.
- `Raised`: the call raised.

A write also raises when the directory does not exist, or when a folder
holds the file's name.

Where the documented contract of the splitter and the code differ, the model
follows the code:

- In the App version, a part whose file is missing after the write is
  skipped with a warning; the Streamlit version appends every part's path
  without checking it.
- A write that raises aborts the whole call, in all three versions.
- The App version checks that the file exists, not that it is non-empty.
- In the App version, a call in which every part went missing returns an
  empty list, not an error.
- The Streamlit version swallows errors into the empty list instead of
  reporting them.

## Model

| member | source | states |
|---|---|---|
| Tables.SliceColumns | app.py:159 | the slice has every row, in order, and exactly the headers and cells of columns lo..hi-1 at their shifted positions |
| Tables.BesideSlices | app.py:159 | two adjacent column slices placed side by side are the slice spanning both |
| Tables.SliceWhole | app.py:159 | the full-width slice is the table itself; an empty slice keeps every row and no column |
| Partition.NumParts | app.py:138 | `num_files`, also streamlit_app.py:72 and script.py:13; definition, properties in Partition.NumPartsIsCeiling |
| Partition.PartStart | app.py:152 | `start_col = i * max_columns`; definition, properties in Partition.PartBounds |
| Partition.PartEnd | app.py:153 | `end_col = min((i + 1) * max_columns, total_columns)`; definition, properties in Partition.PartBounds |
| Partition.NumPartsIsCeiling | app.py:138 | `(C + M - 1) // M` is the least n with n * M >= C; it is 0 exactly when C is 0 |
| Partition.PartBounds | app.py:151-153 | each part is non-empty, at most M wide and inside the table; part 0 starts at column 0, each part ends where the next starts, the last ends at C |
| Partition.ColumnInExactlyOnePart | app.py:151-153 | column j lies in part j / M and in no other part |
| Partition.Part | app.py:152-159 | part i keeps every row in order and exactly the headers and cells of its column range, which holds between 1 and M columns |
| Partition.Parts | app.py:151-159 | there are ceil(C / M) parts, each a well-formed table with all rows |
| Partition.JoinPartsFrom | app.py:151-159 | joining the parts from part i on gives the columns from part i's start to the end |
| Partition.JoinPartsRoundTrip | app.py:159 | joining all parts column-wise, in order, gives back the original table |
| Naming.Decimal | app.py:163 | the rendering of a number is a non-empty run of digits with no leading zero |
| Naming.ParseDecimalInverts | app.py:163 | reading the decimal rendering back gives the number |
| Naming.DecimalInjective | app.py:163 | distinct numbers have distinct renderings |
| Naming.DigitRunsDiffer | app.py:163 | different digit runs followed by non-digit text give different strings |
| Naming.PrefixKeepsDifference | app.py:163 | a common prefix does not make different texts equal |
| Naming.RangedName | app.py:163 | the web versions' file name, also streamlit_app.py:82; definition, properties in Naming.RangedNamesDistinct |
| Naming.NumberedName | script.py:25 | the script's file name; definition, properties in Naming.NumberedNamesDistinct |
| Naming.RangedNamesDistinct | app.py:163 | `split_part_{i+1}_cols_{lo+1}_to_{hi}.xlsx` differs for different part numbers, whatever the ranges |
| Naming.NumberedNamesDistinct | script.py:25 | `split_part_{i+1}.xlsx` differs for different part numbers |
| Naming.JoinPath | streamlit_app.py:83 | an absolute name is the path; otherwise the path starts with the directory and ends with the name |
| Naming.JoinPathInjective | streamlit_app.py:83 | in one directory, distinct relative names give distinct paths |
| FileSystem.SaveRaises | app.py:168 | when `to_excel` raises: the directory is missing, the writer fails, or a folder holds the name; definition, used by FileSystem.Directory.Save |
| FileSystem.AfterSave | app.py:168 | the entries after a `to_excel` that returned: the file replaces any earlier one, or the name is free if the file vanished; definition, properties in Splitting.WritePartsStored |
| FileSystem.Directory.Exists | streamlit_app.py:44 | `os.path.exists(directory)`; definition |
| FileSystem.Directory.Contains | app.py:171 | `os.path.exists(output_path)` for a name in the directory; definition, used by App.WriteEachPart |
| FileSystem.Directory.IsFile | app.py:58 | `os.path.isfile(file_path)`; definition, used by App.ClearDirectory |
| FileSystem.Directory.ListDir | app.py:55 | `os.listdir(directory)` as a set of names; definition, used by App.ClearDirectory |
| FileSystem.Directory.MakeDirs | app.py:143 | afterwards the directory exists, with its entries unchanged |
| FileSystem.Directory.RemoveTree | streamlit_app.py:45 | afterwards the directory is gone, with every entry |
| FileSystem.Directory.Unlink | app.py:59 | the regular file is removed and every other entry kept |
| FileSystem.Directory.Save | app.py:168 | the write raises exactly when the directory is missing, the writer fails, or a folder holds the name; otherwise the name holds the table (or nothing, if the file vanished) and the other entries are kept |
| Splitting.FileName | app.py:163 | part i's name in the web style (app.py:163) or the script style (script.py:25); definition, properties in Splitting.FileNamesDistinct and Splitting.FileNameIsRelative |
| Splitting.FileNamesDistinct | app.py:163 | distinct parts have distinct file names in either name style |
| Splitting.FileNameIsRelative | streamlit_app.py:82-83 | every part name is relative, so joining it keeps the directory |
| Splitting.Pieces | app.py:151-163 | the contract states that there is one file per part, ceil(C / M) of them; the definition gives piece i the name `FileName(style, i, …)` and the table `Part(t, M, i)` |
| Splitting.SavePart | app.py:151-168 | one loop pass slices the columns `i*M` to `min((i+1)*M, C)`, names them, and saves them with the outcome of that write |
| Splitting.PiecesHaveDistinctNames | app.py:163 | no two parts of one split share a file name |
| Splitting.WriteParts | app.py:151-176 | a run that stopped did so at one of the parts it attempted |
| Splitting.WritePartsStep | app.py:168 | a run not yet stopped either stops at the next part, when its write raises, or saves it |
| Splitting.StoppedStays | app.py:181-185 | once a write has raised, no later part is attempted |
| Splitting.WriteIntoMissingDirectory | streamlit_app.py:85 | in a missing directory the first write raises and nothing is written |
| Splitting.WritePartsUntouched | app.py:168 | a name that no attempted part uses is left as it was |
| Splitting.AttemptedDidNotRaise | app.py:168 | an attempted part met an existing directory, a writer that did not fail, and no folder under its name |
| Splitting.WritePartsStored | app.py:168 | after a run, each attempted part's name holds its table if written, and nothing if its file vanished |
| Splitting.WritePartsStopReason | app.py:168 | a run stops only at a part whose write raises |
| Splitting.WrittenPartStored | app.py:159-168 | after a finished run, each written part's file holds that part, whatever held the name before |
| Splitting.Reported | app.py:171-174 | the `output_files` list: the names of the parts below k whose file exists, in part order; definition, properties in Splitting.ReportedNames and Splitting.ReportedFromPieces |
| Splitting.ReportedFromPieces | app.py:171-174 | at most k names are reported for the first k parts, each the name of one of those parts |
| Splitting.ReportedNames | app.py:171-174 | a part's name is reported exactly when its file was written |
| Splitting.ReportedAllWritten | app.py:171-179 | when every write succeeded, every part's name is reported, in part order |
| App.LastDot | app.py:52 | the position of the last '.', or none when there is no '.' |
| App.Lower | app.py:52 | `lower()` keeps the length, leaves no 'A'-'Z' in the result, and keeps every character that is not an upper-case letter |
| App.LowerByAlphabet | app.py:52 | an upper-case letter becomes the letter at the same place of `abcdefghijklmnopqrstuvwxyz` |
| App.LowerKeepsLowerCase | app.py:52 | text without an upper-case letter is returned unchanged |
| App.AllowedFile | app.py:51-52 | true exactly when the name has a '.' and the text after its last '.', lower-cased, is `xlsx` or `xls` |
| App.AllowedFileIgnoresCase | app.py:52 | a name is accepted exactly when its lower-cased form is, so the extension's case does not matter |
| App.TailAsWritten | app.py:26 | `logs[-limit:]`: a suffix of the log; for a positive limit, the last min(limit, n) entries; for 0, all entries |
| App.Tail | app.py:24-26 | the most recent min(limit, n) entries, in order |
| App.TailAsWrittenAgrees | app.py:24-26 | for every positive limit the code returns the most recent `limit` entries |
| App.TailAsWrittenZeroLimit | app.py:26 | for every non-empty buffer, a limit of 0 makes the code return every entry where the intended result is none |
| App.LogStream.constructor | app.py:11-13 | a new buffer holds no entries |
| App.LogStream.Write | app.py:15-19 | `write` appends the message after all earlier ones |
| App.LogStream.GetLogs | app.py:24-26 | `get_logs` as written, with the default limit 100: a suffix of the buffer, of length min(limit, n) for a positive limit, the whole buffer for 0 |
| App.LogStream.RecentLogs | app.py:24-26 | the intended `get_logs`: the most recent min(limit, n) entries |
| App.ClearDirectory | app.py:54-61 | listing a missing directory raises; otherwise exactly the regular files are deleted and every other entry is kept |
| App.SplitExcelColumns | app.py:123-185 | the limit defaults to 4900; read failure, zero columns and a zero limit fail before the directory is touched; otherwise the directory is created and its files deleted, the parts are written in order, and the result is the first failing part or the names of the parts whose file exists |
| App.WriteEachPart | app.py:150-179 | the loop writes the parts in order, stops at the first raising write, and otherwise returns the names whose file exists, in part order |
| App.SplitFilesAreReported | app.py:146-179 | after a successful call the regular files of the directory are exactly the returned names |
| App.SplitPartContents | app.py:159-168 | after a successful call each written part's file holds that part |
| App.SplitKeepsFolders | app.py:143-168 | a call keeps exactly the entries that are not regular files |
| Streamlit.ClearDirectory | streamlit_app.py:42-46 | afterwards the directory exists and has no entries, sub-directories included |
| Streamlit.OutputPaths | streamlit_app.py:83-86 | one path per part, in part order: the directory joined with the part's name |
| Streamlit.OutputPathsDistinct | streamlit_app.py:82-83 | the returned paths are pairwise distinct |
| Streamlit.SplitExcelColumns | streamlit_app.py:48-97 | the limit defaults to 4900; read failure, zero columns and a zero limit give the empty list with nothing written; otherwise the parts are written in order into the directory as it is, and the result is every part's path, or the empty list if a write raised, with earlier parts left on disk |
| Streamlit.MissingDirectoryGivesNothing | streamlit_app.py:85 | into a missing directory the first write raises, so the call writes nothing |
| Script.SplitExcelColumns | script.py:4-27 | the limit defaults to 4900; read failure and a zero limit raise before the directory is touched; otherwise the directory is created, not cleared, and the parts are written in order under `split_part_<n>.xlsx` until one raises |
| Script.ZeroColumnsWritesNothing | script.py:9-20 | a sheet with no columns gives no parts, no write and no error |
| Script.OtherEntriesKept | script.py:17 | every entry whose name is not a part name is left as it was |
| Script.SameNamedFilesOverwritten | script.py:25-26 | after a run that finished, each written `split_part_<n>.xlsx` holds part n-1, replacing any earlier file of that name |

## Left out

- Spreadsheet reading and writing (`pd.read_excel`, `DataFrame.to_excel`,
  openpyxl) are foreign library calls. The load is an input value and
  each write is an outcome.
- Cell formats and header normalisation are not modelled; a cell is blank
  or a text value.
- The messages that `split_excel_columns` prints are not modelled. In the
  App version `sys.stdout` is the `LogStream` (app.py:35-40), so each of
  those prints also adds entries to the log buffer; the model's split does
  not write to a `LogStream`. The Script's prints go to the console. The
  App's printed error text and its traceback are not modelled either. An
  error is a `SplitError` value.
- Log timestamps come from `datetime.now()`, a clock, and are not
  modelled. The copy to the process's standard output, the `StringIO`
  base class, and the redirection of stdout and stderr are process-wide
  I/O and are not modelled either. A log entry is its message.
- The Flask routes, the HTML pages, `secure_filename` and
  `send_from_directory` are UI and library code.
- The Streamlit page, the progress bar (float arithmetic), base64 links,
  the zip archive and the download buttons are UI.
- The file size in MB (app.py:172) is float division used only for a log
  line.
- A negative `max_columns` is not modelled: the limit is a `nat`.
  Python's floor division and negative slicing for negative limits are
  not modelled. A limit of 0 is modelled as the division by zero it
  causes.
- App.ClearDirectory: an `unlink` that raises is caught and printed in the
  source. The model's `Unlink` always succeeds.
- App.ClearDirectory: `os.listdir` order is unspecified, so the listing is
  a set and files are deleted in an arbitrary order. The result does not
  depend on the order.
- App.Lower: only ASCII letters are lower-cased. Unicode case mapping is
  not modelled.
- The directory entries are regular files or other entries (`Folder`).
  Symbolic links and permissions are not modelled. A failing write is
  modelled through the `Raised` outcome.
- FileSystem.Directory.Save: a write that raises is modelled as leaving
  the directory unchanged. A partial or truncated file that a failed
  `to_excel` may leave under the part's name is not modelled. The entries
  stated after an error by the three `SplitExcelColumns` versions, and by
  `Splitting.WritePartsUntouched` for the name of the part whose write
  raised, hold only for a writer that leaves nothing behind when it fails.
- The module-level example call in `script.py` (lines 30-32) runs on
  import with fixed paths. It is not modelled.
- App.SplitExcelColumns and Script.SplitExcelColumns: an exception from
  `os.makedirs` is not modelled. The directory is always created.
- Streamlit.ClearDirectory: an exception from `shutil.rmtree` or
  `os.makedirs` is not modelled, for instance when the path names a
  regular file. The model's directory always exists afterwards.
- Naming.JoinPath: only POSIX `os.path.join` is modelled. Windows path
  joining (drive letters, backslash separators) is not.

## Findings

| source | as written | input that shows it | evidently intended | confidence | as-written member | corrected member |
|---|---|---|---|---|---|---|
| app.py:24-26 | `self.logs[-limit:]`; for a limit of 0, `-0` is `0`, so the slice is the whole buffer | `get_logs(0)` on a buffer holding one entry returns that entry | the most recent `limit` entries, as the comment on line 25 says, so none for 0 | not executed; the only caller passes 200, so the web page is not affected | App.TailAsWrittenZeroLimit | App.LogStream.RecentLogs |
