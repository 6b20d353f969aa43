/** What dropping one file on the main window does to the lists set up
    before a run. The window's fields that this touches are gathered in a
    PreRunState value, and each case of the handler is a function from the
    state before to the state after; the window's methods are proved to
    produce exactly these states. */
module PreRunFiles {
  import Paths
  import opened RunSetup

  const MgfMessage: string := ".mgf files lack MS1 spectra, which are needed for quantification and searching for coisolated peptides. All other features of MetaMorpheus will function."
  const UncompressPrefix: string := "Cannot read, try uncompressing: "
  const ModsPrefix: string := "Cannot parse modification info from: "
  const TomlPrefix: string := "Cannot read toml: "
  const TaskTomlPrefix: string := "Cannot read task toml: "
  const UnrecognizedPrefix: string := "Unrecognized file type: "

  /** What reading a dropped .toml file gives. */
  datatype TomlRead =
    | Unreadable                       // the file is not TOML
    | NoTaskType                       // the table has no TaskType key
    | OtherTaskType                    // a TaskType the window does not know
    | TaskRead(task: TaskSpec)         // a known TaskType, read into a task
    | TaskUnreadable(message: string)  // a known TaskType whose task could not be read

  /** Whether some spectra row has the file name name. */
  predicate HasFileName(files: seq<SpectraFile>, name: string) {
    exists i :: 0 <= i < |files| && files[i].fileName == name
  }

  /** Whether some database row has the path path. */
  predicate HasFilePath(dbs: seq<ProteinDb>, path: string) {
    exists i :: 0 <= i < |dbs| && dbs[i].filePath == path
  }

  predicate DistinctFileNames(files: seq<SpectraFile>) {
    forall i, j :: 0 <= i < j < |files| ==> files[i].fileName != files[j].fileName
  }

  predicate DistinctFilePaths(dbs: seq<ProteinDb>) {
    forall i, j :: 0 <= i < j < |dbs| ==> dbs[i].filePath != dbs[j].filePath
  }

  /** The part of the window a dropped file can change. */
  datatype PreRunState = PreRunState(
    spectraFiles: seq<SpectraFile>,
    proteinDatabases: seq<ProteinDb>,
    preRunTasks: seq<PreRunTask>,
    notifications: seq<string>,
    outputFolder: string,
    licenceAccepted: bool)

  /** The end of the spectra case: the file gets a row unless its file name
      is already listed, then the output folder box is updated. */
  function WithSpectraRow(s: PreRunState, filePath: string): (r: PreRunState)
    ensures HasFileName(r.spectraFiles, Paths.FileName(filePath))
    ensures HasFileName(s.spectraFiles, Paths.FileName(filePath)) ==> r.spectraFiles == s.spectraFiles
    ensures !HasFileName(s.spectraFiles, Paths.FileName(filePath)) ==>
              r.spectraFiles == s.spectraFiles + [NewSpectraFile(filePath)]
    ensures r.outputFolder == UpdatedOutputFolder(s.outputFolder, r.spectraFiles)
    ensures r == s.(spectraFiles := r.spectraFiles, outputFolder := r.outputFolder)
  {
    var name := Paths.FileName(filePath);
    if HasFileName(s.spectraFiles, name) then
      s.(outputFolder := UpdatedOutputFolder(s.outputFolder, s.spectraFiles))
    else
      var files := s.spectraFiles + [NewSpectraFile(filePath)];
      assert files[|s.spectraFiles|].fileName == name;
      s.(spectraFiles := files, outputFolder := UpdatedOutputFolder(s.outputFolder, files))
  }

  /** The spectra case once the licence question is settled: an .mgf file
      gets a warning, a compressed file is refused with a message, any other
      file is added. */
  function AcceptedSpectra(s: PreRunState, filePath: string, ext: string, compressed: bool): (r: PreRunState)
    ensures compressed ==> r.spectraFiles == s.spectraFiles && r.outputFolder == s.outputFolder
    ensures !compressed ==> HasFileName(r.spectraFiles, Paths.FileName(filePath))
    ensures !compressed ==> r.spectraFiles == (if HasFileName(s.spectraFiles, Paths.FileName(filePath))
                                               then s.spectraFiles else s.spectraFiles + [NewSpectraFile(filePath)])
    ensures !compressed ==> r.outputFolder == UpdatedOutputFolder(s.outputFolder, r.spectraFiles)
    ensures |r.notifications| == |s.notifications| + (if ext == ".mgf" then 1 else 0) + (if compressed then 1 else 0)
    ensures r.notifications[..|s.notifications|] == s.notifications
    ensures ext == ".mgf" ==> r.notifications[|s.notifications|] == MgfMessage
    ensures compressed ==> r.notifications[|r.notifications| - 1] == UncompressPrefix + filePath
    ensures r.proteinDatabases == s.proteinDatabases && r.preRunTasks == s.preRunTasks
    ensures r.licenceAccepted == s.licenceAccepted
  {
    var notes := s.notifications + (if ext == ".mgf" then [MgfMessage] else [])
                 + (if compressed then [UncompressPrefix + filePath] else []);
    assert notes[..|s.notifications|] == s.notifications;
    if compressed then s.(notifications := notes)
    else WithSpectraRow(s.(notifications := notes), filePath)
  }

  /** The spectra case: a .raw file needs the Thermo licence; when it has not
      been accepted the dialog's answer is saved, and a refusal ends the case. */
  function SpectraCase(s: PreRunState, filePath: string, ext: string, compressed: bool,
                       licenceDialogAccepts: bool): (r: PreRunState)
    ensures r.licenceAccepted == (s.licenceAccepted || (ext == ".raw" && licenceDialogAccepts))
    ensures ext == ".raw" && !r.licenceAccepted ==> r == s
    ensures (ext != ".raw" || r.licenceAccepted) && !compressed ==>
              HasFileName(r.spectraFiles, Paths.FileName(filePath))
    ensures r.proteinDatabases == s.proteinDatabases && r.preRunTasks == s.preRunTasks
  {
    var licence := if ext == ".raw" && !s.licenceAccepted then licenceDialogAccepts else s.licenceAccepted;
    if ext == ".raw" && !licence then s.(licenceAccepted := licence)
    else AcceptedSpectra(s.(licenceAccepted := licence), filePath, ext, compressed)
  }

  /** The database case: a path not yet listed gets a row, except an .xml
      database whose modifications cannot be read, whose row is taken away
      again with a message. */
  function DatabaseCase(s: PreRunState, filePath: string, ext: string, xmlModsReadable: bool): (r: PreRunState)
    ensures HasFilePath(s.proteinDatabases, filePath) ==> r == s
    ensures !HasFilePath(s.proteinDatabases, filePath) && (ext != ".xml" || xmlModsReadable) ==>
              r == s.(proteinDatabases := s.proteinDatabases + [NewProteinDb(filePath)])
    ensures !HasFilePath(s.proteinDatabases, filePath) && ext == ".xml" && !xmlModsReadable ==>
              r == s.(notifications := s.notifications + [ModsPrefix + filePath])
  {
    if HasFilePath(s.proteinDatabases, filePath) then s
    else if ext == ".xml" && !xmlModsReadable then s.(notifications := s.notifications + [ModsPrefix + filePath])
    else s.(proteinDatabases := s.proteinDatabases + [NewProteinDb(filePath)])
  }

  /** The .toml case: a task of a known type is appended and every task is
      renamed by its position; an unreadable file or task gives a message. */
  function TomlCase(s: PreRunState, filePath: string, toml: TomlRead): (r: PreRunState)
    ensures toml.TaskRead? ==> |r.preRunTasks| == |s.preRunTasks| + 1
                               && r.preRunTasks[|s.preRunTasks|].task == toml.task
    ensures toml.TaskRead? ==> forall i :: 0 <= i < |s.preRunTasks| ==> r.preRunTasks[i].task == s.preRunTasks[i].task
    ensures toml.TaskRead? ==> forall i :: 0 <= i < |r.preRunTasks| ==>
              r.preRunTasks[i].displayName == TaskName(i, r.preRunTasks[i].task.descriptor)
    ensures !toml.TaskRead? ==> r.preRunTasks == s.preRunTasks
    ensures toml == Unreadable ==> r.notifications == s.notifications + [TomlPrefix + filePath]
    ensures toml.TaskUnreadable? ==> r.notifications == s.notifications + [TaskTomlPrefix + toml.message]
    ensures !toml.Unreadable? && !toml.TaskUnreadable? ==> r.notifications == s.notifications
    ensures r.spectraFiles == s.spectraFiles && r.proteinDatabases == s.proteinDatabases
    ensures r.outputFolder == s.outputFolder && r.licenceAccepted == s.licenceAccepted
  {
    match toml
    case Unreadable => s.(notifications := s.notifications + [TomlPrefix + filePath])
    case NoTaskType => s
    case OtherTaskType => s
    case TaskRead(task) => s.(preRunTasks := Renamed(s.preRunTasks + [NewPreRunTask(task)]))
    case TaskUnreadable(message) => s.(notifications := s.notifications + [TaskTomlPrefix + message])
  }

  /** A dropped file of kind kind (Classify of its path) handled by its kind. */
  function Classified(s: PreRunState, kind: FileKind, filePath: string, licenceDialogAccepts: bool,
                      xmlModsReadable: bool, toml: TomlRead): (r: PreRunState)
    ensures !kind.SpectraKind? ==>
              r.spectraFiles == s.spectraFiles && r.outputFolder == s.outputFolder
              && r.licenceAccepted == s.licenceAccepted
    ensures !kind.DatabaseKind? ==> r.proteinDatabases == s.proteinDatabases
    ensures !kind.TaskToml? ==> r.preRunTasks == s.preRunTasks
    ensures kind.Unrecognized? ==> r.notifications == s.notifications + [UnrecognizedPrefix + kind.ext]
  {
    match kind
    case SpectraKind(ext, compressed) => SpectraCase(s, filePath, ext, compressed, licenceDialogAccepts)
    case DatabaseKind(ext, _) => DatabaseCase(s, filePath, ext, xmlModsReadable)
    case TaskToml(_) => TomlCase(s, filePath, toml)
    case Unrecognized(ext) => s.(notifications := s.notifications + [UnrecognizedPrefix + ext])
  }

  /** AddPreRunFile: nothing happens while the Run button is disabled. */
  function AfterAddPreRunFile(s: PreRunState, runTasksEnabled: bool, kind: FileKind, filePath: string,
                              licenceDialogAccepts: bool, xmlModsReadable: bool, toml: TomlRead): (r: PreRunState)
    ensures !runTasksEnabled ==> r == s
  {
    if runTasksEnabled then Classified(s, kind, filePath, licenceDialogAccepts, xmlModsReadable, toml) else s
  }

  lemma AppendNewFileName(files: seq<SpectraFile>, f: SpectraFile)
    requires DistinctFileNames(files) && !HasFileName(files, f.fileName)
    ensures DistinctFileNames(files + [f])
  {
    var r := files + [f];
    forall i, j | 0 <= i < j < |r| ensures r[i].fileName != r[j].fileName {
      if j == |files| {
        assert r[i] == files[i];
      } else {
        assert r[i] == files[i] && r[j] == files[j];
      }
    }
  }

  lemma AppendNewFilePath(dbs: seq<ProteinDb>, d: ProteinDb)
    requires DistinctFilePaths(dbs) && !HasFilePath(dbs, d.filePath)
    ensures DistinctFilePaths(dbs + [d])
  {
    var r := dbs + [d];
    forall i, j | 0 <= i < j < |r| ensures r[i].filePath != r[j].filePath {
      if j == |dbs| {
        assert r[i] == dbs[i];
      } else {
        assert r[i] == dbs[i] && r[j] == dbs[j];
      }
    }
  }

  lemma SpectraCaseKeepsNamesDistinct(s: PreRunState, filePath: string, ext: string, compressed: bool,
                                      licenceDialogAccepts: bool)
    requires DistinctFileNames(s.spectraFiles)
    ensures DistinctFileNames(SpectraCase(s, filePath, ext, compressed, licenceDialogAccepts).spectraFiles)
  {
    if !HasFileName(s.spectraFiles, Paths.FileName(filePath)) {
      AppendNewFileName(s.spectraFiles, NewSpectraFile(filePath));
    }
  }

  lemma DatabaseCaseKeepsPathsDistinct(s: PreRunState, filePath: string, ext: string, xmlModsReadable: bool)
    requires DistinctFilePaths(s.proteinDatabases)
    ensures DistinctFilePaths(DatabaseCase(s, filePath, ext, xmlModsReadable).proteinDatabases)
  {
    if !HasFilePath(s.proteinDatabases, filePath) {
      AppendNewFilePath(s.proteinDatabases, NewProteinDb(filePath));
    }
  }

  /** Since a spectra file is only added when its file name is new, and a
      database only when its path is new, dropping files never lists two
      spectra files with one file name or two databases with one path. */
  lemma AddPreRunFileKeepsRowsDistinct(s: PreRunState, runTasksEnabled: bool, kind: FileKind, filePath: string,
                                       licenceDialogAccepts: bool, xmlModsReadable: bool, toml: TomlRead)
    requires DistinctFileNames(s.spectraFiles) && DistinctFilePaths(s.proteinDatabases)
    ensures var r := AfterAddPreRunFile(s, runTasksEnabled, kind, filePath, licenceDialogAccepts, xmlModsReadable, toml);
      DistinctFileNames(r.spectraFiles) && DistinctFilePaths(r.proteinDatabases)
  {
    if runTasksEnabled {
      match kind
      case SpectraKind(ext, compressed) =>
        SpectraCaseKeepsNamesDistinct(s, filePath, ext, compressed, licenceDialogAccepts);
      case DatabaseKind(ext, _) =>
        DatabaseCaseKeepsPathsDistinct(s, filePath, ext, xmlModsReadable);
      case TaskToml(_) =>
      case Unrecognized(_) =>
    }
  }

  lemma SpectraCaseTwice(s: PreRunState, filePath: string, ext: string, compressed: bool, licenceDialogAccepts: bool)
    ensures var once := SpectraCase(s, filePath, ext, compressed, licenceDialogAccepts);
      SpectraCase(once, filePath, ext, compressed, licenceDialogAccepts).spectraFiles == once.spectraFiles
  {
    var once := SpectraCase(s, filePath, ext, compressed, licenceDialogAccepts);
    if (ext != ".raw" || once.licenceAccepted) && !compressed {
      assert HasFileName(once.spectraFiles, Paths.FileName(filePath));
    }
  }

  lemma DatabaseCaseTwice(s: PreRunState, filePath: string, ext: string, xmlModsReadable: bool)
    ensures var once := DatabaseCase(s, filePath, ext, xmlModsReadable);
      DatabaseCase(once, filePath, ext, xmlModsReadable).proteinDatabases == once.proteinDatabases
  {
    if !HasFilePath(s.proteinDatabases, filePath) && (ext != ".xml" || xmlModsReadable) {
      var dbs := DatabaseCase(s, filePath, ext, xmlModsReadable).proteinDatabases;
      assert dbs[|dbs| - 1].filePath == filePath;
    }
  }

  /** Dropping the same file a second time, with the same answers from the
      dialog and the readers, leaves the spectra and database lists as the
      first drop left them. */
  lemma AddPreRunFileTwice(s: PreRunState, runTasksEnabled: bool, kind: FileKind, filePath: string,
                           licenceDialogAccepts: bool, xmlModsReadable: bool, toml: TomlRead)
    ensures var once := AfterAddPreRunFile(s, runTasksEnabled, kind, filePath, licenceDialogAccepts, xmlModsReadable, toml);
      var twice := AfterAddPreRunFile(once, runTasksEnabled, kind, filePath, licenceDialogAccepts, xmlModsReadable, toml);
      twice.spectraFiles == once.spectraFiles && twice.proteinDatabases == once.proteinDatabases
  {
    if runTasksEnabled {
      match kind
      case SpectraKind(ext, compressed) =>
        SpectraCaseTwice(s, filePath, ext, compressed, licenceDialogAccepts);
      case DatabaseKind(ext, _) =>
        DatabaseCaseTwice(s, filePath, ext, xmlModsReadable);
      case TaskToml(_) =>
      case Unrecognized(_) =>
    }
  }
}
