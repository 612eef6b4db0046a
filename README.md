# Auto-Organizer, modelled in Dafny

Auto-Organizer is a command-line script, `organizer.py`. It sorts the regular
files at the top level of one directory into category sub-folders, choosing the
category from the file extension.

A run goes through these steps:

- It checks that the path is a directory.
- It makes sure a folder exists for every category of the fixed table, plus
  `Other`.
- It takes a snapshot of the top-level regular files.
- For each file it splits off the extension and classifies it. The lookup is
  case-insensitive, the first table row listing the extension wins, and `Other`
  is the fallback.
- It picks a destination name that does not overwrite anything. That is the
  file's own name if free, otherwise the first free `{base}_{n}{ext}` for
  n = 1, 2, 3, ...
- It moves the file and counts the move for its category. A failed move only
  skips that file.
- It reports, in alphabetical order, every category with a positive count,
  and says so when nothing moved. The total is computed for that test but not
  printed.

The model has five modules:

- `Classifier` (`classifier.dfy`): the category table, ASCII lower-casing and
  the first-match lookup `GetCategory`.
- `PathSplit` (`splitext.dfy`): the standard base/extension split of a bare
  file name.
- `Naming` (`naming.dfy`): decimal numerals, the numbered candidate names, and
  the probe loop `ResolveName`.
- `Summary` (`summary.dfy`): string order as Python compares `str`, the sorted
  category names, the count total, and the summary loop `Summarize`.
- `Organizer` (`organizer.dfy`): the directory as a class `Directory`.
  - Its fields are whether the path is a directory, the top-level files, and
    the top-level folders with the names each holds.
  - Its methods are the provisioning, the snapshot, the per-file move, the
    processing loop and the whole run `Organize`.
  - A ghost log of successful moves ties the run to its specification
    predicates: `Processed`, `Placed`, `Counted`, `Grown` and `SummaryOf`.

Three outside effects become parameters:

- `canCreate` says which missing folders the system lets the run create.
- `succeeds` says which files it lets the run move.
- The listing order is an arbitrary choice.

## Model

| member | source | states |
|---|---|---|
| `Classifier.CategoryNamesFollowTable` | organizer.py:60 | The provisioned names are the table's keys, in table order, followed by `Other`. |
| `Classifier.TableAvoidsFallback` | organizer.py:14-22 | No table row is named `Other`, so the fallback is never confused with a match. |
| `Classifier.Lower` | organizer.py:30 | ASCII lower-casing of the extension, one character at a time. Its contract is stated by `LowerIsLower`, `LowerOfLower` and `GetCategoryIgnoresCase`. |
| `Classifier.LowerIsLower` | organizer.py:30 | Lower-casing keeps the length and leaves no upper-case letter. |
| `Classifier.LowerOfLower` | organizer.py:30 | Lower-casing a string that has no upper-case letter returns it unchanged. |
| `Classifier.Scan` | organizer.py:31-34 | The early-return loop over the table rows. What it returns is stated by `ScanFirstMatch`. |
| `Classifier.GetCategory` | organizer.py:24-34 | Lower-case the extension, then scan the table. What it returns is stated by `GetCategoryFirstMatch`, `FirstMatchClassified`, `GetCategoryIsCategoryName` and `GetCategoryIgnoresCase`. |
| `Classifier.ScanFirstMatch` | organizer.py:31-34 | The scan returns `Other` exactly when no row lists the extension. Otherwise it returns the name of the first row that lists it. |
| `Classifier.GetCategoryFirstMatch` | organizer.py:24-34 | The category is `Other` if and only if no row lists the lower-cased extension. Otherwise it is the name of the first row, in table order, that lists it. |
| `Classifier.FirstMatchClassified` | organizer.py:31-33 | Converse: if row i is the first to list the lower-cased extension, the category is row i's name. |
| `Classifier.GetCategoryIsCategoryName` | organizer.py:24-34 | Every category returned is one of the provisioned folder names. |
| `Classifier.GetCategoryIgnoresCase` | organizer.py:27-30 | An extension and its lower-case form get the same category. |
| `Classifier.EmptyExtensionIsOther` | organizer.py:34 | A file without an extension is classified `Other`. |
| `Classifier.TableExtensionsShort` | organizer.py:14-22 | Every listed extension has two to five characters. |
| `Classifier.UnlistedLengthIsOther` | organizer.py:14-34 | An extension shorter than two or longer than five characters is classified `Other`. |
| `Classifier.ImageExample` | organizer.py:24-34 | `.JPG` is classified `Images`. |
| `Classifier.DocumentExample` | organizer.py:24-34 | `.txt` is classified `Documents`. |
| `Classifier.UnknownExample` | organizer.py:24-34 | `.unknowncustomext` is classified `Other`. |
| `PathSplit.LastIndexOf` | organizer.py:98 | The result is the index of the last occurrence of the character, or -1 when it does not occur. |
| `PathSplit.SplitExt` | organizer.py:98 | The `splitext` call on a bare file name. What it returns is stated by `SplitExtIsSplit` and `SplitIsUnique`. |
| `PathSplit.SplitExtIsSplit` | organizer.py:97-98 | Base and extension concatenate to the name. A non-empty extension starts at a dot, holds no other dot, and follows a base that is not all dots. An empty extension means every dot is in the name's leading run of dots. |
| `PathSplit.SplitIsUnique` | organizer.py:97-98 | Any split with those properties is the one computed, so the properties define the split. |
| `PathSplit.DotFileExample` | organizer.py:98 | `.gitignore` has no extension. |
| `PathSplit.MultiDotExample` | organizer.py:98 | `a.b.pdf` splits into `a.b` and `.pdf`. |
| `Naming.DigitChar` | organizer.py:114 | The digit character has the digit's value. |
| `Naming.NatToString` | organizer.py:114 | The decimal form is non-empty, all digits, and has no leading zero unless the number is 0. |
| `Naming.ParseNatToString` | organizer.py:114 | Reading the decimal form back gives the number. |
| `Naming.NatToStringInjective` | organizer.py:114 | Different counters have different decimal forms. |
| `Naming.Candidate` | organizer.py:114 | The renamed destination `{base}_{n}{ext}`. Its properties are stated by `CandidateInjective` and `CandidateSetSize`. |
| `Naming.CandidateInjective` | organizer.py:114 | For one base and extension, candidates for different counters are different names. |
| `Naming.CandidateSetSize` | organizer.py:112-116 | The first n candidates are n distinct names. |
| `Naming.ProbesBounded` | organizer.py:112-116 | A folder blocks at most as many candidates as it holds names, so the probe loop ends. |
| `Naming.ResolveName` | organizer.py:104-116 | The chosen name is not in the folder. It is the file's own name when that is free. Otherwise it is `{base}_{n}{ext}` for the least n >= 1 such that the name is free. |
| `Naming.ResolvedIsUnique` | organizer.py:104-116 | At most one name meets that description. |
| `Naming.FirstRenameExample` | organizer.py:112-116 | With `report.pdf` taken, the new name is `report_1.pdf`. |
| `Naming.SecondRenameExample` | organizer.py:112-116 | With `report.pdf` and `report_1.pdf` taken, the new name is `report_2.pdf`. |
| `Summary.LexLess` | organizer.py:144 | String order by character code, the order `sorted()` uses. It is irreflexive and transitive (`LexLessIrreflexive`, `LexLessTransitive`). |
| `Summary.LexLessIrreflexive` | organizer.py:144 | No string sorts before itself. |
| `Summary.LexLessTransitive` | organizer.py:144 | String order is transitive. |
| `Summary.SortedNeighbours` | organizer.py:144 | Each category name sorts before the next one alphabetically. |
| `Summary.SortedByNeighbours` | organizer.py:144 | Increasing neighbours make the whole sequence strictly increasing. |
| `Summary.SortedCategoryNames` | organizer.py:144 | `sorted()` of the count map's keys gives the eight category names, each once, in strictly increasing order. That makes it a sorted permutation. |
| `Summary.Total` | organizer.py:142-150 | The sum of the counts of the listed names. `TotalIncrement`, `TotalUnchanged` and `TotalZero` state how it behaves. |
| `Summary.TotalIncrement` | organizer.py:150 | Adding one to a listed name's count adds one to the total. |
| `Summary.TotalUnchanged` | organizer.py:150 | Adding one to an unlisted name's count leaves the total unchanged. |
| `Summary.TotalZero` | organizer.py:152 | The total is zero exactly when every listed count is zero. |
| `Summary.SummarizedAdd` | organizer.py:146-150 | A name with a positive count is added as the next line and to the total. The summary invariant is kept. |
| `Summary.SummarizedSkip` | organizer.py:146-148 | A name with a zero count is skipped, and the summary invariant is kept. |
| `Summary.SummarizedAll` | organizer.py:146-153 | Once all names are seen, three facts hold. The lines are exactly the positive counts. The total is their sum. The total is zero exactly when there are no lines. |
| `Summary.Summarize` | organizer.py:142-153 | The lines are exactly the pairs (category, count) with a positive count, in strictly increasing category order. The total is the sum of the counts. The total is zero (the message that nothing moved) exactly when no line is printed. |
| `Organizer.LogAppend` | organizer.py:118-129 | Logging one move adds its file to the moved files. It adds its name and one to its folder's count, and changes no other folder. |
| `Organizer.NotYetMoved` | organizer.py:76-87 | A snapshot entry has not been moved before its own turn. |
| `Organizer.ProcessedSkip` | organizer.py:130-138 | A failed move keeps the loop invariant without logging anything. |
| `Organizer.ProcessedMove` | organizer.py:118-129 | A successful, well-formed move of the current entry keeps the loop invariant. Each file is still logged at most once. |
| `Organizer.ProcessedAll` | organizer.py:87-138 | After the loop, exactly the snapshot files whose move succeeded are in the log, each once. Each went to its extension's category under its own name or a numbered candidate. |
| `Organizer.FilesMove` | organizer.py:120 | A move removes exactly that file from the top level. |
| `Organizer.FolderMove` | organizer.py:120 | After a move, each folder holds its earlier names plus the names moved into it, one new name per move. |
| `Organizer.FoldersMove` | organizer.py:120 | A move into a folder that does not hold the name adds one name to that folder only. The set of folders stays the same. |
| `Organizer.PlacedMove` | organizer.py:118-120 | A move keeps the placement invariant for both the files and the folders. |
| `Organizer.CountedMove` | organizer.py:129 | A move adds one to its category's count only. |
| `Organizer.EntryMoved` | organizer.py:104-129 | A successful move keeps the processing, placement, counting and naming invariants together. The name must be the one resolved against the folder as it stands. |
| `Organizer.TotalAgrees` | organizer.py:142-150 | Count maps that agree on the listed names have the same total. |
| `Organizer.TotalCounted` | organizer.py:129-150 | The total over the category names grows by exactly one per successful move. |
| `Organizer.DistinctCardinality` | organizer.py:76 | A list without repeats has as many entries as members. |
| `Organizer.GrownByProvision` | organizer.py:57-67 | Provisioning keeps every folder's contents and adds only empty folders. |
| `Organizer.GrownByRun` | organizer.py:57-138 | After provisioning and the moves, every folder holds its earlier names plus the names moved into it. Its size grows by exactly the number of moves into it, so nothing was overwritten. |
| `Organizer.ResolvedMove` | organizer.py:104-120 | A log in which every move took the least free name against its folder at that point stays so after one more move named by the probe loop against the current folder. |
| `Organizer.ResolvedKept` | organizer.py:104-116 | Appending a move keeps every earlier move resolved against the same folder contents. |
| `Organizer.ResolvedLast` | organizer.py:104-120 | The appended move is resolved against its folder as the earlier moves left it: the starting names plus the names moved in before. |
| `Organizer.ResolvedByRun` | organizer.py:57-116 | Provisioning adds only empty folders, so names resolved against the provisioned folders are resolved against the original ones. |
| `Organizer.SummaryOfCounts` | organizer.py:72-153 | Counting from zero and summarising over the sorted names has four consequences. The total is the number of moves. The lines are exactly the categories with a positive number of moves, with that number, in alphabetical order. The total is zero exactly when there are no lines. |
| `Organizer.Directory.constructor` | organizer.py:52 | A directory state built from whether the path is a directory, its files and its folders. No name is both a file and a folder. |
| `Organizer.Directory.EnsureFolder` | organizer.py:65 | Ensure-exists creation of one folder. An existing folder is kept as is. A regular file of that name makes it fail. Otherwise it succeeds exactly when the system allows, adding an empty folder. |
| `Organizer.Directory.Provision` | organizer.py:57-67 | The category folders are ensured in table order, then `Other`. Provisioning succeeds exactly when every category folder already exists or can be made: no file has its name and the system allows it. On success every category folder exists. Existing folders keep their contents. Only empty category folders that the system allowed are added. On failure three facts hold. The reported folder is the first one, in that order, that cannot be ensured. Every folder before it exists. No folder after it was created. |
| `Organizer.Directory.ListFiles` | organizer.py:76 | The snapshot lists every top-level regular file exactly once and no folder. |
| `Organizer.Directory.MoveFile` | organizer.py:118-120 | A successful move takes the file off the top level and adds the name to its category folder only. A failed move changes nothing. |
| `Organizer.Directory.ProcessFile` | organizer.py:96-120 | The file is classified by the extension split off its name, and the category is a provisioned folder. The chosen name is the resolved collision-free name. The move is applied exactly when the system lets it succeed. |
| `Organizer.Directory.ProcessEntry` | organizer.py:87-138 | One loop turn keeps the processing, placement, counting and naming invariants. A moved file takes the least free name against its folder as it stands. |
| `Organizer.Directory.ProcessFiles` | organizer.py:87-138 | After the loop, exactly the files whose move succeeded have moved, each once, to their category. Each took the name the probe loop chooses against its folder as earlier moves left it. The folders hold exactly their earlier names plus the moved ones. Each category's count grew by the number of moves into it. |
| `Organizer.Directory.MoveAndSummarize` | organizer.py:70-154 | Counts start at zero, the snapshot is processed, and the summary is taken over the sorted names. Every move took the least free name. The summary is the summary of the moves, and the total is the number of moves. |
| `Organizer.Directory.Organize` | organizer.py:36-154 | The whole run. For an invalid path the result is `NotADirectory` and nothing changes. For a directory, the result is `ProvisionFailed` exactly when some category folder neither exists nor can be made. It then names the first such folder in table order. The folders before it exist, none after it was created, and no file moves. An empty snapshot gives `NoFilesFound`. Otherwise every category folder exists and exactly the files whose move succeeded have moved, each once, to their category. Each moved file took the least free name against its folder at that point, so nothing was overwritten. Folders only grow, and new folders are category folders the system allowed. The summary lists the categories moved into, with their counts, in alphabetical order. Its total is the number of moves. |

## Left out

- The `main` function and argument parsing (lines 157 onward): they only read the path and call the run.
- The printed text of every message: the model returns the outcome (`Report`) and the summary lines instead.
- Classifier.Lower: lower-cases ASCII letters only. Python's `str.lower` also folds non-ASCII letters, some of them to ASCII. For example U+212A KELVIN SIGN becomes `k`, so the script files `.m\u212Av` under `Video` while the model classifies it as `Other`. Extensions holding non-ASCII letters that fold to a listed extension are classified differently.
- Classifier.GetCategory: the model does not prove that the table rows share no extension. No property proved here needs it, because the first match decides the category anyway.
- PathSplit.SplitExt: models the split of a bare name only. Listing entries never hold a directory separator.
- Organizer.Directory.ListFiles: the listing always succeeds in the model. In the script, `os.listdir` (line 76) is outside any `try`. A directory that can be searched and written but not read (mode `-wx` for a non-root user) passes the check at line 52 and the folder creation at line 65, but then makes the listing raise `PermissionError`. That ends the program after provisioning, with nothing moved and no summary.
- Organizer.Directory.Organize: has no outcome for that unreadable-directory case. Where the script stops after creating the category folders, the model goes on to list, move and summarise.
- Organizer.Directory.ListFiles: the listing order is not modelled; any order the listing yields is allowed.
- The file system is reduced to top-level names. Files are names only, and folders are the sets of names they hold. Symbolic links, special files, nested paths and file contents are not part of this model.
- Organizer.Directory.MoveFile: the move is modelled as all or nothing. A success removes the file from the top level and adds it to the folder; a failure changes nothing. `shutil.move` does not guarantee this. After any `OSError` from the rename, not only a cross-device one, it copies the file and then deletes the source. If the deletion fails, say because the top level is read-only or sticky, the script reports a failure (line 133) and does not count the file, which is then in both places. A copy that fails midway leaves a partial file in the folder.
- Organizer.Directory.Organize: `Grown`'s "exactly the earlier names plus the moved ones" assumes that a failed move leaves no copy behind.
- Organizer.Directory.MoveFile: the three `except` branches (lines 130-138) are merged into one failure. They differ only in the message they print. Whether a move fails is the parameter `succeeds`.
- Organizer.Directory.EnsureFolder: a failed folder creation becomes a `ProvisionFailed` outcome. In the script, the exception from `os.makedirs` is not caught and ends the program. Whether creation fails is the parameter `canCreate`.
- Organizer.Directory.ProcessEntry: the re-checks at lines 92-93 and 96 are always passed in the model. No other process changes the directory during a run, so every snapshot entry is still a regular file when its turn comes. The model proves this as an assertion instead of modelling the branches.
- Organizer.Directory.ProcessFile: the destination check `os.path.exists` is modelled as membership in the folder's names.
- Summary.Summarize: takes the sorted key list as a parameter. `SortedCategoryNames` states what `sorted()` returns for the count map's keys, which are always the eight category names.
- The printed summary for an empty snapshot ("No files were moved.") is the `NoFilesFound` outcome.
- Printing is assumed never to fail. In the script the success message (lines 123-126) is printed inside the `try`, between the move and the count. If standard output cannot encode a file name, the file is moved but not counted. The `except Exception` handler then tries to print the same name, fails again, and the run ends with no summary. The model counts every successful move and always reaches the summary.
- File names are compared exactly, as on a case-sensitive file system. On file systems that match names without regard to case (the defaults on Windows and macOS), `os.path.exists` and `os.makedirs` treat `Report.pdf` and `report.pdf` as the same name. The script then renames where the model does not. The no-overwrite property proved here assumes exact name matching.
