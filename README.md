# MetaMorpheus run setup, update check and calibration data point in Dafny

This project models three parts of MetaMorpheus:

- **The main window's bookkeeping** (`GUI/MainWindow.xaml.cs`). Before a run the
  window keeps a list of spectra files, a list of protein databases and a list of
  configured tasks. During a run it keeps a progress tree of the running tasks.
  - Dropping a file classifies it by extension. A spectra file is added only if
    no listed file has the same file name, and a database only if its path is new.
  - Moving a task swaps it with its neighbour, and every change renames the tasks
    by position ("Task" + (i + 1) + "-" + descriptor).
  - After calibration or GPTMD the lists are merged: entries are switched off and
    new ones appended.
  - Pressing Run checks tasks, spectra files and databases in that order. It then
    builds the in-run task list, fills in the output folder (`$DATETIME` replaced
    by the timestamp) and checks the experimental design for normalizing searches.
  - Engine events walk the progress tree by a list of ids. Label and progress
    events open missing collections; the written-file event skips missing ids.
- **The update window** (`GUI/MetaUpdater.xaml.cs`). `GetVersionNumber` reads a
  dotted tag into a triple of 32-bit integers, falling back to (0, 0, 0) on a
  `FormatException` only. `ReleaseHandler` lists the release notes of the leading
  run of releases newer than the running version, stopping at the first one that
  is not newer.
- **The calibration data point** (`InternalLogic/Calibration/CalibrationFunctions/DataPoint.cs`):
  a nine-field immutable record, its two constructors and its `ToString`.

The window is the class `MainWindowModel.MainWindow`. Its fields are the window's
lists and its methods change them in place; each method's postcondition states
the new state through a function of the old state.
- The pure rules live in `RunSetup`: naming, classification, merging, the design
  check, the output folder and the run outcome.
- The file-drop handler's cases live in `PreRunFiles`. Its `PreRunState` gathers
  the fields a dropped file can change.
- The progress tree (`ProgressTree`) is a value. The moving reference of the
  handlers' loops is a path of child indices, and the loop methods are proved
  equal to recursive walk functions.
- The .NET string operations the code relies on (`Split`, `Replace`, `Path.*`,
  `int.Parse`, `ToLowerInvariant`) are written out in `Text`, `Paths`, `Decimal`
  and `MetaUpdater`.

Answers from the outside world are parameters:
- the Thermo licence dialog's answer;
- whether the modifications of an `.xml` database can be read;
- what reading a `.toml` file gives;
- the lines of the experimental design file (`None` when it does not exist);
- the timestamp;
- the Markdown rendering of a release body;
- the text of a double.

## Model

| member | source | states |
|---|---|---|
| Calibration.NewDataPoint | InternalLogic/Calibration/CalibrationFunctions/DataPoint.cs:22-30 | the six-argument constructor stores its six arguments in the matching fields and leaves the charge-state guess, isolation m/z and relative m/z at zero; every argument is accepted |
| Calibration.NewFullDataPoint | InternalLogic/Calibration/CalibrationFunctions/DataPoint.cs:15-21 | the nine-argument constructor stores each of its nine arguments in the matching field |
| Calibration.ShortConstructorIsFullWithZeros | InternalLogic/Calibration/CalibrationFunctions/DataPoint.cs:15-30 | through the delegation, the shared six fields are what the six-argument constructor sets: the short constructor is the full one with zeros for the other three |
| Calibration.FullConstructorRebuildsEveryPoint | InternalLogic/Calibration/CalibrationFunctions/DataPoint.cs:5-21 | every point equals the full constructor applied to its own fields, so construction loses nothing and the readonly fields fix the point |
| Calibration.ToString | InternalLogic/Calibration/CalibrationFunctions/DataPoint.cs:32-35 | the text is "(" + mz + "," + rt + ")": its length is the two numbers' lengths plus three, between parentheses |
| Calibration.ParsePair | InternalLogic/Calibration/CalibrationFunctions/DataPoint.cs:32-35 | inverse partner of ToString: a pair it reads back rebuilds the text exactly |
| Calibration.ToStringShowsMzAndRt | InternalLogic/Calibration/CalibrationFunctions/DataPoint.cs:32-35 | the text depends on mz and rt only, and when mz's text has no comma both texts are read back from it |
| Decimal.NatToString | GUI/MainWindow.xaml.cs:1219 | the decimal text of a number is one or more digits with no leading zero |
| Decimal.DigitsValueOfNatToString | GUI/MetaUpdater.xaml.cs:30 | reading the digits of a number back gives the number |
| Decimal.NatToStringInjective | GUI/MainWindow.xaml.cs:1219 | different numbers have different decimal texts |
| Decimal.IntToString | GUI/MetaUpdater.xaml.cs:30 | a negative integer prints as '-' followed by the digits of its magnitude, any other as its digits |
| Text.Split | GUI/MetaUpdater.xaml.cs:28 | String.Split gives at least one part and no part holds the separator |
| Text.JoinSplit | GUI/MetaUpdater.xaml.cs:28 | joining the parts of a split with the separator gives back the text |
| Text.SplitJoin | GUI/MetaUpdater.xaml.cs:28 | splitting the join of separator-free parts gives back the parts |
| Text.SplitAtSeparator | GUI/MetaUpdater.xaml.cs:28 | the parts of a + sep + b are the parts of a followed by the parts of b |
| Text.SplitWithoutSeparator | GUI/MetaUpdater.xaml.cs:28 | a text without the separator splits into itself alone |
| Text.ReplaceAllWithoutOccurrence | GUI/MainWindow.xaml.cs:751 | String.Replace leaves a text without an occurrence of the pattern unchanged |
| Text.ReplaceAllRemovesEveryOccurrence | GUI/MainWindow.xaml.cs:751 | when the replacement is non-empty and shares no character with the pattern, no occurrence survives the replacement |
| Text.Lower | GUI/MainWindow.xaml.cs:1421 | ToLowerInvariant keeps the length and lower-cases each character in place |
| Paths.FileName | GUI/MainWindow.xaml.cs:1420 | Path.GetFileName has no separator in it and is no longer than the path |
| Paths.FileNameIsSuffix | GUI/MainWindow.xaml.cs:1420 | the file name is the suffix of the path after its last separator |
| Paths.FileNameAfterSeparator | GUI/MainWindow.xaml.cs:1420 | the file name of dir + separator + name is name, whatever dots or separators dir holds |
| Paths.FileNameOfPlainName | GUI/MainWindow.xaml.cs:1423 | a name without separators is its own file name |
| Paths.LastDot | GUI/MainWindow.xaml.cs:1421 | the dot that starts the extension: no dot or separator follows it |
| Paths.LastDotAppendPlain | GUI/MainWindow.xaml.cs:1421 | appending text without dots or separators does not move the extension's dot |
| Paths.ExtensionOfStemAndExt | GUI/MainWindow.xaml.cs:1421 | the extension of stem + ".ext" is ".ext" whatever dots the stem holds |
| Paths.DirectoryName | GUI/MainWindow.xaml.cs:746 | the directory part is a proper prefix of the path, or empty |
| Paths.Combine | GUI/MainWindow.xaml.cs:747 | Path.Combine starts with the directory and ends with the second part |
| MetaUpdater.ParseInt32 | GUI/MetaUpdater.xaml.cs:30 | int.Parse gives a 32-bit value, or a FormatException or OverflowException, never an index error |
| MetaUpdater.ParseInt32OfIntToString | GUI/MetaUpdater.xaml.cs:30 | int.Parse reads back the printed text of every 32-bit integer |
| MetaUpdater.EmptyIsFormatError | GUI/MetaUpdater.xaml.cs:30 | an empty component is a FormatException |
| MetaUpdater.Component | GUI/MetaUpdater.xaml.cs:30 | reading split[k] fails with IndexOutOfRangeException exactly when k is past the end |
| MetaUpdater.GetVersionNumber | GUI/MetaUpdater.xaml.cs:24-36 | a FormatException never escapes: it is caught and becomes (0, 0, 0) |
| MetaUpdater.VersionOfComponents | GUI/MetaUpdater.xaml.cs:28-35 | components 0, 1, 2 are parsed in order and only a FormatException is caught |
| MetaUpdater.SplitVersionText | GUI/MetaUpdater.xaml.cs:28 | the text a.b.c splits into the texts of a, b and c |
| MetaUpdater.VersionTextRoundTrip | GUI/MetaUpdater.xaml.cs:24-30 | "a.b.c" with 32-bit integer components reads as (a, b, c) |
| MetaUpdater.ComponentsAfterThirdIgnored | GUI/MetaUpdater.xaml.cs:30 | components after the third never change the outcome |
| MetaUpdater.ExtraComponentsIgnored | GUI/MetaUpdater.xaml.cs:28-30 | appending "." and anything to a tag of three or more components leaves its version as it was |
| MetaUpdater.FourComponentsExample | GUI/MetaUpdater.xaml.cs:28-30 | "1.2.3.4" reads as (1, 2, 3) |
| MetaUpdater.NonIntegerComponentGivesZero | GUI/MetaUpdater.xaml.cs:26-35 | when the first failing component among the first three is not a number (an empty one included), the result is (0, 0, 0) |
| MetaUpdater.TooFewComponentsThrows | GUI/MetaUpdater.xaml.cs:28-32 | with fewer than three components that all parse, IndexOutOfRangeException escapes uncaught |
| MetaUpdater.NotNewerIsLexicographicOrder | GUI/MetaUpdater.xaml.cs:85-88 | the break test is the lexicographic order on triples: reflexive, antisymmetric, transitive and total |
| MetaUpdater.VersionsOf | GUI/MetaUpdater.xaml.cs:84 | one version outcome per release, that of its tag, in list order |
| MetaUpdater.Listed | GUI/MetaUpdater.xaml.cs:82-95 | the loop never lists more releases than there are |
| MetaUpdater.ListedStopsAtFirstNotNewer | GUI/MetaUpdater.xaml.cs:82-95 | when the first j releases are newer and the next is not, exactly those j are listed, or the next one's fault escapes |
| MetaUpdater.ListedIsNewerPrefix | GUI/MetaUpdater.xaml.cs:82-95 | what is listed is a leading run of strictly newer releases, ended by the list's end or by one that is not newer; a fault escapes only from a tag reached before the loop breaks |
| MetaUpdater.EqualVersionIsNeverListed | GUI/MetaUpdater.xaml.cs:85-88 | a release equal to the running version is never listed, nor anything after it |
| MetaUpdater.RenderShape | GUI/MetaUpdater.xaml.cs:90-94 | each listed release adds a block of five lines, in order, whose second holds its tag inside h3 |
| MetaUpdater.PageForVersion | GUI/MetaUpdater.xaml.cs:80-96 | once the running version is known, the page is the rendering of the listed prefix or the escaping fault |
| MetaUpdater.ListedAt | GUI/MetaUpdater.xaml.cs:84-88 | one step of the listing at index i: throw, break, or count the release and go on |
| MetaUpdater.RenderStep | GUI/MetaUpdater.xaml.cs:90-94 | rendering one more release appends its block |
| MetaUpdater.ReleaseHandler | GUI/MetaUpdater.xaml.cs:70-100 | the loop with its early break produces exactly the page of the listed prefix, or the fault that escapes GetVersionNumber |
| ProgressTree.Fresh | GUI/MainWindow.xaml.cs:278 | a new node has its kind, id and name, no status, no progress, determinate, no children |
| ProgressTree.FirstWithId | GUI/MainWindow.xaml.cs:274 | Children.First by id: the first child with the id, or the end when none has it |
| ProgressTree.Apply | GUI/MainWindow.xaml.cs:312-313 | a label sets the status and makes the node indeterminate; a progress sets status and progress and makes it determinate; a new child is appended without a check |
| ProgressTree.WithChild | GUI/MainWindow.xaml.cs:272-280 | afterwards the id is found; the node is unchanged when it was there, else exactly one collection named by the id is appended |
| ProgressTree.FirstWithIdAppend | GUI/MainWindow.xaml.cs:278-279 | the appended collection is the one First then finds |
| ProgressTree.WalkCreate | GUI/MainWindow.xaml.cs:297-313 | the walk of the label and progress handlers keeps the kind, id and name of the node it starts at |
| ProgressTree.WalkSkip | GUI/MainWindow.xaml.cs:398-410 | the written-file walk keeps the kind, id and name of the node it starts at |
| ProgressTree.FirstWithIdReplace | GUI/MainWindow.xaml.cs:303 | replacing the matched child by one with the same id keeps it the first match |
| ProgressTree.WalkCreateReaches | GUI/MainWindow.xaml.cs:297-313 | after the creating walk the ids address a node, and it is the reached node with the update applied |
| ProgressTree.WalkOnExistingPath | GUI/MainWindow.xaml.cs:299-311 | on a path that already exists the creating walk opens nothing and agrees with the skipping walk |
| ProgressTree.ReplaceChildKeepsWellFormed | GUI/MainWindow.xaml.cs:303 | replacing a child by a well-formed one with the same id keeps sibling ids distinct |
| ProgressTree.WithChildKeepsWellFormed | GUI/MainWindow.xaml.cs:305-309 | opening a missing collection never duplicates a sibling id |
| ProgressTree.WalkCreateKeepsWellFormed | GUI/MainWindow.xaml.cs:297-345 | label and progress events keep sibling ids distinct throughout the tree |
| ProgressTree.SizeOfAppend | GUI/MainWindow.xaml.cs:410 | appending a child adds its nodes to the count |
| ProgressTree.SizeOfReplace | GUI/MainWindow.xaml.cs:303 | replacing a child changes the count by the difference of the two subtrees |
| ProgressTree.SizeOfApply | GUI/MainWindow.xaml.cs:312-313 | only an appended child changes the number of nodes |
| ProgressTree.WalkSkipAddsOnlyTheUpdate | GUI/MainWindow.xaml.cs:398-410 | recording a written file never creates nodes: the tree grows by the leaf alone |
| ProgressTree.WalkCreateAddsAtMostOnePerId | GUI/MainWindow.xaml.cs:267-283 | the creating walk opens at most one collection per id it follows |
| ProgressTree.ReplaceAtThenNodeAt | GUI/MainWindow.xaml.cs:303 | after replacing the node at a path, that path finds the new node |
| ProgressTree.ReplaceAtTwice | GUI/MainWindow.xaml.cs:303-308 | a second replacement at the same path overrides the first |
| ProgressTree.PathExtend | GUI/MainWindow.xaml.cs:303 | moving the reference to a child is extending the path by its index |
| ProgressTree.FindOrCreate | GUI/MainWindow.xaml.cs:299-313 | the cursor loop that opens missing collections computes WalkCreate |
| ProgressTree.FindSkipping | GUI/MainWindow.xaml.cs:400-410 | the cursor loop that skips missing ids computes WalkSkip |
| RunSetup.NewSpectraFile | GUI/MainWindow.xaml.cs:1463 | a new spectra row has the path, the path's file name, and is in use |
| RunSetup.TaskNameInjective | GUI/MainWindow.xaml.cs:1219 | a task name determines its position and its descriptor |
| RunSetup.Renamed | GUI/MainWindow.xaml.cs:1215-1221 | after renaming, the task at position i keeps its configuration and is named "Task" + (i + 1) + "-" + descriptor |
| RunSetup.RenamedNamesDistinct | GUI/MainWindow.xaml.cs:1215-1221 | renamed tasks never share a name, and renaming again changes nothing |
| RunSetup.InRunTasks | GUI/MainWindow.xaml.cs:789 | the engine receives one (name, task) pair per task, named by position, in list order |
| RunSetup.InRunNamesMatchRenamed | GUI/MainWindow.xaml.cs:735-738 | the in-run list has the renamed list's names, in the same order |
| RunSetup.Swapped | GUI/MainWindow.xaml.cs:697-699 | entries k and t exchange places and every other entry is unchanged |
| RunSetup.SwapIsPermutation | GUI/MainWindow.xaml.cs:697-699 | a swap is a permutation, and swapping back restores the list |
| RunSetup.MoveUpThenDown | GUI/MainWindow.xaml.cs:688-699 | moving a task up and then down again restores the order |
| RunSetup.SpectraPaths | GUI/MainWindow.xaml.cs:198 | the paths of the spectra rows, in order |
| RunSetup.Missing | GUI/MainWindow.xaml.cs:199 | the new paths not listed before are no more than the new paths |
| RunSetup.MissingMembers | GUI/MainWindow.xaml.cs:199 | a path is appended exactly when it is new and was not listed before |
| RunSetup.MarkUncalibrated | GUI/MainWindow.xaml.cs:190-196 | a row whose path was not written by calibration is switched off and every other row is unchanged |
| RunSetup.NewSpectraFiles | GUI/MainWindow.xaml.cs:199-202 | one new row per path, in order |
| RunSetup.MergeCalibrated | GUI/MainWindow.xaml.cs:181-206 | old rows keep place, path and name, and stay in use exactly when they were and were calibrated; appended rows are new, in use, calibrated; every calibrated path is listed afterwards |
| RunSetup.MergedListsEveryNewFile | GUI/MainWindow.xaml.cs:189-202 | every path calibration wrote is listed after the merge |
| RunSetup.MissingSnoc | GUI/MainWindow.xaml.cs:199 | one more calibrated path is appended exactly when it was not listed |
| RunSetup.NewSpectraFilesSnoc | GUI/MainWindow.xaml.cs:201 | a new path adds its row at the end |
| RunSetup.AppendMissingStep | GUI/MainWindow.xaml.cs:199-202 | one pass of the append loop grows the list by the next path's row exactly when that path was not listed |
| RunSetup.NewProteinDbs | GUI/MainWindow.xaml.cs:172-175 | one new database row per path, in order, repeats kept |
| RunSetup.AllUnused | GUI/MainWindow.xaml.cs:167-170 | every database is kept but switched off |
| RunSetup.UsedSpectraPaths | GUI/MainWindow.xaml.cs:790 | the engine only receives paths of spectra rows in use |
| RunSetup.UsedSpectraPathsComplete | GUI/MainWindow.xaml.cs:790 | converse: the path of every spectra row in use reaches the engine |
| RunSetup.UsedSpectraPathsAppend | GUI/MainWindow.xaml.cs:790 | the spectra files in use of two lists are those of each, in list order |
| RunSetup.UsedDatabasePathsAppend | GUI/MainWindow.xaml.cs:791 | the databases in use of two lists are those of each, in order |
| RunSetup.UsedOfAllUnused | GUI/MainWindow.xaml.cs:167-170 | after switching all off, no database is in use |
| RunSetup.UsedOfNewDbs | GUI/MainWindow.xaml.cs:172-175 | the new databases are all in use, in order |
| RunSetup.MergeGptmdUsesOnlyNewDatabases | GUI/MainWindow.xaml.cs:159-179 | after GPTMD every old database is kept but off, and the databases in use are exactly the new ones, in order, repeats included |
| RunSetup.MergeCalibratedUsesOnlyNewFiles | GUI/MainWindow.xaml.cs:181-206 | after calibration only calibrated files are in use |
| RunSetup.KindOf | GUI/MainWindow.xaml.cs:1425-1551 | .raw, .mgf and .mzml are spectra; .xml, .fasta and .fa databases; .toml a task; anything else unrecognized; the extension and the compressed flag are carried along |
| RunSetup.ClassifyPlainFile | GUI/MainWindow.xaml.cs:1418-1425 | dir\stem.ext is classified by ext lower-cased, uncompressed, whatever dots the folders and the stem hold |
| RunSetup.ClassifyCompressedFile | GUI/MainWindow.xaml.cs:1418-1425 | dir\stem.ext.gz is compressed and classified by ext lower-cased |
| RunSetup.NameHasNoSeparator | GUI/MainWindow.xaml.cs:1420 | a stem and an extension without separators make a name without separators |
| RunSetup.DesignKeys | GUI/MainWindow.xaml.cs:774 | one key per design line: the text before its first tab |
| RunSetup.FirstUndefined | GUI/MainWindow.xaml.cs:775-784 | None exactly when every spectra file's name is a design key; otherwise the name of the first file, in list order, that is not |
| RunSetup.FirstUndefinedStep | GUI/MainWindow.xaml.cs:778 | a first file whose name is defined does not change the search's answer |
| RunSetup.CheckDesignPasses | GUI/MainWindow.xaml.cs:754-785 | the design check passes exactly when the file exists, its keys are distinct and it defines every spectra file |
| RunSetup.DefaultOutputFolder | GUI/MainWindow.xaml.cs:744-748 | the default folder ends with $DATETIME |
| RunSetup.NoTokenAfterSubstitution | GUI/MainWindow.xaml.cs:750-752 | no $DATETIME is left once a yyyy-MM-dd-HH-mm-ss timestamp is substituted |
| RunSetup.ReplaceAllAfterPlainText | GUI/MainWindow.xaml.cs:751 | text without '$' before the token is copied unchanged by the substitution |
| RunSetup.DefaultFolderGetsTimestamp | GUI/MainWindow.xaml.cs:744-752 | with the default folder the output folder becomes the timestamp inside the first spectra file's folder |
| RunSetup.UpdatedOutputFolder | GUI/MainWindow.xaml.cs:1349-1366 | cleared with no spectra files; a folder already set is kept; otherwise it is filled, never left blank |
| RunSetup.UpdatedOutputFolderIdempotent | GUI/MainWindow.xaml.cs:1349-1366 | updating the folder twice is updating it once |
| RunSetup.StartRunCheckOrder | GUI/MainWindow.xaml.cs:717-731 | tasks, then spectra files, then databases, then the design are checked, and the first failure decides |
| RunSetup.StartedRunIsWellFormed | GUI/MainWindow.xaml.cs:711-797 | a started run has one distinctly named task per task, a folder free of $DATETIME, and a design defining every spectra file when a search normalizes |
| PreRunFiles.WithSpectraRow | GUI/MainWindow.xaml.cs:1463-1469 | afterwards the file name is listed; the list grows by the new row exactly when the name was new; the output folder is updated; nothing else changes |
| PreRunFiles.AcceptedSpectra | GUI/MainWindow.xaml.cs:1453-1470 | .mgf adds the MS1 warning first; a compressed file adds "Cannot read, try uncompressing: " + path last and changes no list or folder; otherwise the list grows by the new row exactly when no row has the file name, and the folder box is updated from the new list; earlier messages and other lists are kept |
| PreRunFiles.SpectraCase | GUI/MainWindow.xaml.cs:1427-1470 | .raw needs the licence, asked once and saved; a refusal changes nothing else; an accepted uncompressed file's name is listed afterwards |
| PreRunFiles.DatabaseCase | GUI/MainWindow.xaml.cs:1472-1495 | a listed path changes nothing; a new path is appended, except an .xml whose modifications cannot be read, which leaves only a message |
| PreRunFiles.TomlCase | GUI/MainWindow.xaml.cs:1497-1546 | a task of a known type is appended after the earlier tasks, which keep their configuration, and task i is named TaskName(i, descriptor), with messages unchanged; an unreadable file adds "Cannot read toml: " + path and an unreadable task "Cannot read task toml: " + message; otherwise the tasks are unchanged; files, databases and folder are never touched |
| PreRunFiles.Classified | GUI/MainWindow.xaml.cs:1425-1551 | each case touches only its own list; an unrecognized extension adds "Unrecognized file type: " + the extension |
| PreRunFiles.AfterAddPreRunFile | GUI/MainWindow.xaml.cs:1408-1413 | nothing changes while the Run button is disabled |
| PreRunFiles.AppendNewFileName | GUI/MainWindow.xaml.cs:1463-1467 | appending a row with a new file name keeps file names distinct |
| PreRunFiles.AppendNewFilePath | GUI/MainWindow.xaml.cs:1475-1478 | appending a row with a new path keeps database paths distinct |
| PreRunFiles.SpectraCaseKeepsNamesDistinct | GUI/MainWindow.xaml.cs:1457-1470 | the spectra case never lists two rows with one file name |
| PreRunFiles.DatabaseCaseKeepsPathsDistinct | GUI/MainWindow.xaml.cs:1472-1495 | the database case never lists two rows with one path |
| PreRunFiles.AddPreRunFileKeepsRowsDistinct | GUI/MainWindow.xaml.cs:1408-1551 | dropping a file keeps spectra file names and database paths distinct |
| PreRunFiles.SpectraCaseTwice | GUI/MainWindow.xaml.cs:1457-1470 | a spectra file dropped again leaves the spectra list as the first drop left it |
| PreRunFiles.DatabaseCaseTwice | GUI/MainWindow.xaml.cs:1472-1495 | a database dropped again leaves the database list as the first drop left it |
| PreRunFiles.AddPreRunFileTwice | GUI/MainWindow.xaml.cs:1408-1551 | dropping the same file twice leaves both lists as after the first drop |
| MainWindowModel.MainWindow.constructor | GUI/MainWindow.xaml.cs:35-74 | a new window has empty lists, an empty folder and pane, and the Run button enabled |
| MainWindowModel.MainWindow.SpectraFileExists | GUI/MainWindow.xaml.cs:1378-1386 | true exactly when some row has the same file name |
| MainWindowModel.MainWindow.DatabaseExists | GUI/MainWindow.xaml.cs:1368-1376 | true exactly when some row has the same path |
| MainWindowModel.MainWindow.UpdateOutputFolderTextbox | GUI/MainWindow.xaml.cs:1349-1366 | the folder box becomes UpdatedOutputFolder of its old text |
| MainWindowModel.MainWindow.UpdateGuiOnPreRunChange | GUI/MainWindow.xaml.cs:1213-1231 | the loop leaves the task list renamed by position |
| MainWindowModel.MainWindow.AddTaskToCollection | GUI/MainWindow.xaml.cs:1554-1558 | the task is appended and the list renamed |
| MainWindowModel.MainWindow.MoveSelectedTask | GUI/MainWindow.xaml.cs:680-706 | nothing selected or a target out of range leaves the list as it was; otherwise the selected task and its neighbour swap and the list is renamed |
| MainWindowModel.MainWindow.AddNewProteinDatabaseFromGptmd | GUI/MainWindow.xaml.cs:159-179 | the two loops leave the list MergeGptmd of the old one |
| MainWindowModel.MainWindow.AddNewSpectraFileFromCalibration | GUI/MainWindow.xaml.cs:181-206 | the list becomes MergeCalibrated of the old one and the folder box is updated |
| MainWindowModel.MainWindow.SwitchOffUncalibrated | GUI/MainWindow.xaml.cs:190-196 | the first loop leaves MarkUncalibrated of the old list |
| MainWindowModel.MainWindow.AppendCalibrated | GUI/MainWindow.xaml.cs:198-202 | the second loop appends the rows of the paths not listed before, in order |
| MainWindowModel.MainWindow.SuccessfullyStartingAllTasks | GUI/MainWindow.xaml.cs:362-374 | the Run button is disabled |
| MainWindowModel.MainWindow.AddSpectraRow | GUI/MainWindow.xaml.cs:1463-1469 | the window's new state is WithSpectraRow of its old state |
| MainWindowModel.MainWindow.AcceptSpectraFile | GUI/MainWindow.xaml.cs:1453-1470 | the window's new state is AcceptedSpectra of its old state |
| MainWindowModel.MainWindow.AddSpectraFile | GUI/MainWindow.xaml.cs:1427-1470 | the window's new state is SpectraCase of its old state |
| MainWindowModel.MainWindow.AddDatabase | GUI/MainWindow.xaml.cs:1472-1495 | the window's new state is DatabaseCase of its old state |
| MainWindowModel.MainWindow.AddTaskToml | GUI/MainWindow.xaml.cs:1497-1546 | the window's new state is TomlCase of its old state |
| MainWindowModel.MainWindow.AddPreRunFile | GUI/MainWindow.xaml.cs:1408-1552 | the window's new state is AfterAddPreRunFile of its old state, for the kind the path's extension gives |
| MainWindowModel.MainWindow.AddFileOfKind | GUI/MainWindow.xaml.cs:1410-1551 | the guard and the switch give AfterAddPreRunFile of the old state |
| MainWindowModel.MainWindow.RunAllTasks | GUI/MainWindow.xaml.cs:711-797 | the outcome is StartRun of the lists; a failed check adds its message and changes nothing else; otherwise the pane is cleared, the in-run list is named by position and the folder has the timestamp |
| MainWindowModel.MainWindow.FillInProgressTasks | GUI/MainWindow.xaml.cs:733-738 | one fresh in-run node per task, named by position |
| MainWindowModel.MainWindow.SetRunFolder | GUI/MainWindow.xaml.cs:744-752 | the folder box becomes RunFolder of its old text |
| MainWindowModel.MainWindow.DesignCheckForRun | GUI/MainWindow.xaml.cs:754-785 | the check runs once per normalizing search and the first failure stops the run; with no normalizing search the run goes ahead |
| MainWindowModel.MainWindow.Root | GUI/MainWindow.xaml.cs:267 | an event can be applied exactly when its ids are non-empty and some in-run task has the first id; the empty id list is the failure only when there are in-run tasks (First calls its lambda only then) |
| MainWindowModel.MainWindow.NewoutLabelStatus | GUI/MainWindow.xaml.cs:287-315 | the addressed task is replaced by WalkCreate with a label update; an event with no such task changes nothing |
| MainWindowModel.MainWindow.NewoutProgressBar | GUI/MainWindow.xaml.cs:320-347 | the addressed task is replaced by WalkCreate with a progress update; an event with no such task changes nothing |
| MainWindowModel.MainWindow.AddBranchToTreeView | GUI/MainWindow.xaml.cs:257-285 | only the ids between the first and the last are walked or opened, then a collection for the last id is always appended |
| MainWindowModel.MainWindow.FinishedWritingFile | GUI/MainWindow.xaml.cs:390-412 | the addressed task is replaced by WalkSkip appending a leaf named by the file name |

## Left out

- `RealTimeGUI/MainWindow.xaml.cs`: it only appends text to a textbox through classes that are not part of this model.
- Dispatcher re-marshalling (`CheckAccess`/`BeginInvoke`) and running the engine on a `Task` are left out: they are UI-thread concurrency.
- `EverythingRunnerEngine` itself is left out; `RunAllTasks` returns the run it would be given.
- WPF concerns are left out: dialogs, `MessageBox`, grid refreshes and commits, tree selection, the welcome document and the other click handlers. The design check's message boxes are the `DesignBlocks` outcome.
- Network and foreign libraries are left out: the HTTP request, JSON parsing and the Markdown transform. The release list is a parameter and the Markdown rendering a function parameter.
- TOML reading and writing, modification loading from `.xml` databases, the licence dialog and saving the settings file are left out. Their results are parameters, and the licence answer is stored in a field.
- `UpdateFileSpecificParamsDisplay` (called from the spectra case) and `AddNewFileSpecificTomlFromCalibration` are left out: they read file-specific TOML files. The final `UpdateGuiOnPreRunChange` of `UpdateFileSpecificParamsDisplay` renames the tasks; dropping it changes nothing, because every change to the task list already ends in `Renamed` and renaming a renamed list gives it back (`RunSetup.RenamedNamesDistinct`).
- `AddPreRunFiles` is left out: it enumerates directories on disk. Each file it finds goes through `AddPreRunFile`, which is modelled.
- The crash report of `EverythingRunnerExceptionHandler` is left out: it is I/O-bound.
- `InRunTask` and the tree nodes are values here, not shared objects, so aliasing between the in-run list and the tree view is not captured.
- The `Contaminant` flag of databases is left out: the run model passes database paths only.
- `InProgressTasks` being null before the first run is not modelled: the list starts empty, so an event before a run reads as `NoSuchTask` instead of a null reference.
- Calibration.ToString: the culture-dependent text of a double is the parameter `formatNumber`. Only which fields appear, and in what shape, is stated.
- Text.Lower: only ASCII letters are lower-cased. The file extensions compared against are ASCII.
- Paths.DirectoryName: Path.GetDirectoryName's normalisation and root handling are not modelled; it keeps the text before the last `\` or `/`.
- Paths.Combine: the checks for invalid characters and for a rooted second part are not modelled. The second part is always the literal `$DATETIME` here.
- MetaUpdater.ParseInt32: trailing NUL characters and culture-specific signs are not modelled.
- MetaUpdater.ReleaseHandler: the page is a list of lines, not a single string with line breaks.
- RunSetup.FirstUndefined: the message names the first undefined spectra file in list order. The code takes the first element of a `HashSet.Except`, whose enumeration order .NET does not promise.
- RunSetup.NewSpectraFile: the row classes are not part of this model. A new row is taken to have the path's file name and to be in use, and a new task row to carry its descriptor as its first name.
- MainWindowModel.MainWindow.MoveSelectedTask: the selected task is required to be in the list. In the window it is an item of the tree bound to that list, so `IndexOf` finds it.
