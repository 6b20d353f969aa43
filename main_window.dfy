/** The main window's bookkeeping: the spectra files, protein databases and
    tasks set up before a run, the progress tree of a run, the output folder
    box and the notifications pane. The window's lists are changed in place by
    its event handlers; each handler here is a method that changes the fields
    it names and states the new state in terms of the rules in RunSetup and
    ProgressTree. Dialogs, file reads and the clock are parameters. */
module MainWindowModel {
  import opened Optional
  import Text
  import Paths
  import opened RunSetup
  import opened ProgressTree
  import opened PreRunFiles

  const NeedTaskMessage: string := "You need to add at least one task!"
  const NeedSpectraFileMessage: string := "You need to add at least one spectra file!"
  const NeedDatabaseMessage: string := "You need to add at least one protein database!"
  /** What a progress event meets: the update is made, the id list is empty
      (indexing it throws), or no in-run task has the first id (First throws). */
  datatype TreeOutcome = Updated | NoIds | NoSuchTask

  class MainWindow {
    var spectraFiles: seq<SpectraFile>
    var proteinDatabases: seq<ProteinDb>
    var preRunTasks: seq<PreRunTask>
    var inProgressTasks: seq<Node>
    /** The Run button: enabled while no run is in progress. */
    var runTasksEnabled: bool
    /** Whether the user has agreed to the Thermo RawFileReader licence (a saved setting). */
    var licenceAccepted: bool
    /** The text of the output folder box. */
    var outputFolder: string
    /** The messages in the notifications pane, one per line. */
    var notifications: seq<string>
    /** The global flag that asks running loops to stop. */
    var stopLoops: bool

    constructor(licenceAccepted: bool)
      ensures spectraFiles == [] && proteinDatabases == [] && preRunTasks == [] && inProgressTasks == []
      ensures runTasksEnabled && this.licenceAccepted == licenceAccepted
      ensures outputFolder == "" && notifications == [] && !stopLoops
    {
      spectraFiles := [];
      proteinDatabases := [];
      preRunTasks := [];
      inProgressTasks := [];
      runTasksEnabled := true;
      this.licenceAccepted := licenceAccepted;
      outputFolder := "";
      notifications := [];
      stopLoops := false;
    }

    /** Whether a spectra row with the same file name is already listed. */
    method SpectraFileExists(files: seq<SpectraFile>, f: SpectraFile) returns (b: bool)
      ensures b <==> HasFileName(files, f.fileName)
    {
      var i := 0;
      while i < |files|
        invariant i <= |files|
        invariant forall k :: 0 <= k < i ==> files[k].fileName != f.fileName
      {
        if files[i].fileName == f.fileName {
          return true;
        }
        i := i + 1;
      }
      return false;
    }

    /** Whether a database row with the same path is already listed. */
    method DatabaseExists(dbs: seq<ProteinDb>, d: ProteinDb) returns (b: bool)
      ensures b <==> HasFilePath(dbs, d.filePath)
    {
      var i := 0;
      while i < |dbs|
        invariant i <= |dbs|
        invariant forall k :: 0 <= k < i ==> dbs[k].filePath != d.filePath
      {
        if dbs[i].filePath == d.filePath {
          return true;
        }
        i := i + 1;
      }
      return false;
    }

    /** Fills a blank output folder box from the first spectra file, or clears
        it when there are no spectra files. */
    method UpdateOutputFolderTextbox()
      modifies this`outputFolder
      ensures outputFolder == UpdatedOutputFolder(old(outputFolder), spectraFiles)
    {
      if spectraFiles != [] {
        if Text.IsBlank(outputFolder) {
          outputFolder := DefaultOutputFolder(spectraFiles[0].filePath);
        }
      } else {
        outputFolder := "";
      }
    }

    /** Names every task by its position. */
    method UpdateGuiOnPreRunChange()
      modifies this`preRunTasks
      ensures preRunTasks == Renamed(old(preRunTasks))
    {
      var i := 0;
      while i < |preRunTasks|
        invariant i <= |preRunTasks| == |old(preRunTasks)|
        invariant forall k :: 0 <= k < i ==> preRunTasks[k] == Renamed(old(preRunTasks))[k]
        invariant forall k :: i <= k < |preRunTasks| ==> preRunTasks[k] == old(preRunTasks)[k]
      {
        var newName := TaskName(i, preRunTasks[i].task.descriptor);
        preRunTasks := preRunTasks[i := preRunTasks[i].(displayName := newName)];
        i := i + 1;
      }
    }

    method AddTaskToCollection(task: TaskSpec)
      modifies this`preRunTasks
      ensures preRunTasks == Renamed(old(preRunTasks) + [NewPreRunTask(task)])
    {
      preRunTasks := preRunTasks + [NewPreRunTask(task)];
      UpdateGuiOnPreRunChange();
    }

    /** Swaps the selected task with the next one (moveTaskUp) or the previous
        one, when that one exists, and renames the tasks. selected is the index
        of the selected task, None when nothing is selected. */
    method MoveSelectedTask(selected: Option<nat>, moveTaskUp: bool)
      requires selected.Some? ==> selected.value < |preRunTasks|
      modifies this`preRunTasks
      ensures selected.None? ==> preRunTasks == old(preRunTasks)
      ensures selected.Some? ==>
        var t := MoveTarget(selected.value, moveTaskUp);
        preRunTasks == if 0 <= t < |old(preRunTasks)| then Renamed(Swapped(old(preRunTasks), selected.value, t))
                       else old(preRunTasks)
    {
      if selected.None? {
        return;
      }
      var indexOfSelected: int := selected.value;
      var indexToMoveTo := indexOfSelected - 1;
      if moveTaskUp {
        indexToMoveTo := indexOfSelected + 1;
      }
      if 0 <= indexToMoveTo < |preRunTasks| {
        var selectedTask := preRunTasks[indexOfSelected];
        var temp := preRunTasks[indexToMoveTo];
        preRunTasks := preRunTasks[indexToMoveTo := selectedTask];
        preRunTasks := preRunTasks[indexOfSelected := temp];
        assert preRunTasks == Swapped(old(preRunTasks), indexOfSelected, indexToMoveTo);
        UpdateGuiOnPreRunChange();
      }
    }

    /** After GPTMD: every database is switched off, then the new ones are appended. */
    method AddNewProteinDatabaseFromGptmd(newDatabases: seq<string>)
      modifies this`proteinDatabases
      ensures proteinDatabases == MergeGptmd(old(proteinDatabases), newDatabases)
    {
      var i := 0;
      while i < |proteinDatabases|
        invariant i <= |proteinDatabases| == |old(proteinDatabases)|
        invariant forall k :: 0 <= k < i ==> proteinDatabases[k] == AllUnused(old(proteinDatabases))[k]
        invariant forall k :: i <= k < |proteinDatabases| ==> proteinDatabases[k] == old(proteinDatabases)[k]
      {
        proteinDatabases := proteinDatabases[i := proteinDatabases[i].(use := false)];
        i := i + 1;
      }
      assert proteinDatabases == AllUnused(old(proteinDatabases));
      var j := 0;
      while j < |newDatabases|
        invariant j <= |newDatabases|
        invariant proteinDatabases == AllUnused(old(proteinDatabases)) + NewProteinDbs(newDatabases[..j])
      {
        proteinDatabases := proteinDatabases + [NewProteinDb(newDatabases[j])];
        assert NewProteinDbs(newDatabases[..j + 1]) == NewProteinDbs(newDatabases[..j]) + [NewProteinDb(newDatabases[j])];
        j := j + 1;
      }
      assert newDatabases[..j] == newDatabases;
    }

    /** After calibration: rows whose path is not among the calibrated files are
        switched off, calibrated files not yet listed are appended, and the
        output folder box is updated. */
    method AddNewSpectraFileFromCalibration(newFiles: seq<string>)
      modifies this`spectraFiles, this`outputFolder
      ensures spectraFiles == MergeCalibrated(old(spectraFiles), newFiles)
      ensures outputFolder == UpdatedOutputFolder(old(outputFolder), spectraFiles)
    {
      SwitchOffUncalibrated(newFiles);
      assert SpectraPaths(spectraFiles) == SpectraPaths(old(spectraFiles));
      AppendCalibrated(newFiles);
      UpdateOutputFolderTextbox();
    }

    /** The first loop of AddNewSpectraFileFromCalibration: every listed file
        that calibration did not write is switched off. */
    method SwitchOffUncalibrated(newFiles: seq<string>)
      modifies this`spectraFiles
      ensures spectraFiles == MarkUncalibrated(old(spectraFiles), newFiles)
    {
      var i := 0;
      while i < |spectraFiles|
        invariant i <= |spectraFiles| == |old(spectraFiles)|
        invariant forall k :: 0 <= k < i ==> spectraFiles[k] == MarkUncalibrated(old(spectraFiles), newFiles)[k]
        invariant forall k :: i <= k < |spectraFiles| ==> spectraFiles[k] == old(spectraFiles)[k]
      {
        if spectraFiles[i].filePath !in newFiles {
          spectraFiles := spectraFiles[i := spectraFiles[i].(use := false)];
        }
        i := i + 1;
      }
    }

    /** The second loop of AddNewSpectraFileFromCalibration: each calibrated
        file whose path was not listed before is appended, in use. */
    method AppendCalibrated(newFiles: seq<string>)
      modifies this`spectraFiles
      ensures spectraFiles == old(spectraFiles) + NewSpectraFiles(Missing(newFiles, SpectraPaths(old(spectraFiles))))
    {
      ghost var marked := spectraFiles;
      var files := SpectraPaths(spectraFiles);
      var j := 0;
      assert spectraFiles == marked + NewSpectraFiles(Missing(newFiles[..j], files));
      while j < |newFiles|
        invariant j <= |newFiles|
        invariant spectraFiles == marked + NewSpectraFiles(Missing(newFiles[..j], files))
      {
        AppendMissingStep(marked, newFiles, files, j);
        if newFiles[j] !in files {
          spectraFiles := spectraFiles + [NewSpectraFile(newFiles[j])];
        }
        j := j + 1;
      }
      assert newFiles[..j] == newFiles;
    }

    /** The Run button is disabled once the engine has started. */
    method SuccessfullyStartingAllTasks()
      modifies this`runTasksEnabled
      ensures !runTasksEnabled
    {
      runTasksEnabled := false;
    }

    /** The fields a dropped file can change. */
    function PreRun(): PreRunState
      reads this
    {
      PreRunState(spectraFiles, proteinDatabases, preRunTasks, notifications, outputFolder, licenceAccepted)
    }

    /** The end of the spectra case of AddPreRunFile. */
    method AddSpectraRow(filePath: string)
      modifies this`spectraFiles, this`outputFolder
      ensures PreRun() == WithSpectraRow(old(PreRun()), filePath)
    {
      var zz := NewSpectraFile(filePath);
      var found := SpectraFileExists(spectraFiles, zz);
      if !found {
        spectraFiles := spectraFiles + [zz];
      }
      UpdateOutputFolderTextbox();
    }

    /** The spectra case of AddPreRunFile past the licence. */
    method AcceptSpectraFile(filePath: string, ext: string, compressed: bool)
      modifies this`spectraFiles, this`notifications, this`outputFolder
      ensures PreRun() == AcceptedSpectra(old(PreRun()), filePath, ext, compressed)
    {
      if ext == ".mgf" {
        notifications := notifications + [MgfMessage];
      }
      if compressed {
        notifications := notifications + [UncompressPrefix + filePath];
      } else {
        AddSpectraRow(filePath);
      }
    }

    /** The spectra case of AddPreRunFile; the answer to the licence dialog is a parameter. */
    method AddSpectraFile(filePath: string, ext: string, compressed: bool, licenceDialogAccepts: bool)
      modifies this`spectraFiles, this`notifications, this`outputFolder, this`licenceAccepted
      ensures PreRun() == SpectraCase(old(PreRun()), filePath, ext, compressed, licenceDialogAccepts)
    {
      var agreed := true;
      if ext == ".raw" && !licenceAccepted {
        licenceAccepted := licenceDialogAccepts;
        agreed := licenceAccepted;
      }
      if agreed {
        AcceptSpectraFile(filePath, ext, compressed);
      }
    }

    /** The database case of AddPreRunFile; whether the modifications of an
        .xml database can be read is a parameter. */
    method AddDatabase(filePath: string, ext: string, xmlModsReadable: bool)
      modifies this`proteinDatabases, this`notifications
      ensures PreRun() == DatabaseCase(old(PreRun()), filePath, ext, xmlModsReadable)
    {
      var uu := NewProteinDb(filePath);
      var found := DatabaseExists(proteinDatabases, uu);
      if !found {
        proteinDatabases := proteinDatabases + [uu];
        if ext == ".xml" && !xmlModsReadable {
          notifications := notifications + [ModsPrefix + filePath];
          proteinDatabases := proteinDatabases[..|proteinDatabases| - 1];
        }
      }
    }

    /** The .toml case of AddPreRunFile; what reading the file gives is a parameter. */
    method AddTaskToml(filePath: string, toml: TomlRead)
      modifies this`preRunTasks, this`notifications
      ensures PreRun() == TomlCase(old(PreRun()), filePath, toml)
    {
      match toml
      case Unreadable =>
        notifications := notifications + [TomlPrefix + filePath];
      case NoTaskType =>
      case OtherTaskType =>
      case TaskRead(task) =>
        AddTaskToCollection(task);
      case TaskUnreadable(message) =>
        notifications := notifications + [TaskTomlPrefix + message];
    }

    /** Adds one dropped file, by its kind; nothing happens while a run is in progress. */
    method AddPreRunFile(filePath: string, licenceDialogAccepts: bool, xmlModsReadable: bool, toml: TomlRead)
      modifies this`spectraFiles, this`proteinDatabases, this`preRunTasks, this`notifications,
               this`outputFolder, this`licenceAccepted
      ensures PreRun() == AfterAddPreRunFile(old(PreRun()), runTasksEnabled, Classify(filePath), filePath,
                                             licenceDialogAccepts, xmlModsReadable, toml)
    {
      var kind := Classify(filePath);
      AddFileOfKind(kind, filePath, licenceDialogAccepts, xmlModsReadable, toml);
    }

    /** AddPreRunFile once the kind of the file is known. */
    method AddFileOfKind(kind: FileKind, filePath: string, licenceDialogAccepts: bool, xmlModsReadable: bool,
                         toml: TomlRead)
      modifies this`spectraFiles, this`proteinDatabases, this`preRunTasks, this`notifications,
               this`outputFolder, this`licenceAccepted
      ensures PreRun() == AfterAddPreRunFile(old(PreRun()), runTasksEnabled, kind, filePath,
                                             licenceDialogAccepts, xmlModsReadable, toml)
    {
      if !runTasksEnabled {
        return;
      }
      match kind
      case SpectraKind(ext, compressed) =>
        AddSpectraFile(filePath, ext, compressed, licenceDialogAccepts);
      case DatabaseKind(ext, _) =>
        AddDatabase(filePath, ext, xmlModsReadable);
      case TaskToml(_) =>
        AddTaskToml(filePath, toml);
      case Unrecognized(ext) =>
        notifications := notifications + [UnrecognizedPrefix + ext];
    }

    /** Pressing Run: the checks in order, then the in-run list, the output
        folder with the timestamp substituted, the design check for
        normalizing searches, and the engine run. designLines is the content
        of the experimental design file, None when there is none. */
    method RunAllTasks(timestamp: string, designLines: Option<seq<string>>) returns (outcome: RunOutcome)
      modifies this`stopLoops, this`notifications, this`inProgressTasks, this`outputFolder
      ensures outcome == StartRun(preRunTasks, spectraFiles, proteinDatabases, old(outputFolder), timestamp, designLines)
      ensures !stopLoops
      ensures outcome == NeedTask ==> notifications == old(notifications) + [NeedTaskMessage]
      ensures outcome == NeedSpectraFile ==> notifications == old(notifications) + [NeedSpectraFileMessage]
      ensures outcome == NeedDatabase ==> notifications == old(notifications) + [NeedDatabaseMessage]
      ensures outcome.NeedTask? || outcome.NeedSpectraFile? || outcome.NeedDatabase? ==>
                inProgressTasks == old(inProgressTasks) && outputFolder == old(outputFolder)
      ensures outcome.DesignBlocks? || outcome.Started? ==>
        && notifications == []
        && |inProgressTasks| == |preRunTasks|
        && (forall i :: 0 <= i < |preRunTasks| ==>
              inProgressTasks[i] == NewTask(TaskName(i, preRunTasks[i].task.descriptor)))
        && outputFolder == RunFolder(old(outputFolder), spectraFiles, timestamp)
    {
      stopLoops := false;
      if preRunTasks == [] {
        notifications := notifications + [NeedTaskMessage];
        return NeedTask;
      }
      if spectraFiles == [] {
        notifications := notifications + [NeedSpectraFileMessage];
        return NeedSpectraFile;
      }
      if proteinDatabases == [] {
        notifications := notifications + [NeedDatabaseMessage];
        return NeedDatabase;
      }
      FillInProgressTasks();
      notifications := [];
      SetRunFolder(timestamp);
      var check := DesignCheckForRun(preRunTasks, spectraFiles, designLines);
      if check != DesignOk {
        outcome := DesignBlocks(check);
      } else {
        outcome := Started(EngineRun(InRunTasks(preRunTasks), UsedSpectraPaths(spectraFiles),
                                     UsedDatabasePaths(proteinDatabases), outputFolder));
      }
    }

    /** The in-run list of RunAllTasks: one fresh task node per pre-run task,
        named by its position. */
    method FillInProgressTasks()
      modifies this`inProgressTasks
      ensures |inProgressTasks| == |preRunTasks|
      ensures forall i :: 0 <= i < |preRunTasks| ==>
                inProgressTasks[i] == NewTask(TaskName(i, preRunTasks[i].task.descriptor))
    {
      inProgressTasks := [];
      var i := 0;
      while i < |preRunTasks|
        invariant i <= |preRunTasks| && |inProgressTasks| == i
        invariant forall k :: 0 <= k < i ==> inProgressTasks[k] == NewTask(TaskName(k, preRunTasks[k].task.descriptor))
      {
        inProgressTasks := inProgressTasks + [NewTask(TaskName(i, preRunTasks[i].task.descriptor))];
        i := i + 1;
      }
    }

    /** The output folder of RunAllTasks: the default when the box is empty,
        then $DATETIME replaced by the timestamp. */
    method SetRunFolder(timestamp: string)
      requires spectraFiles != []
      modifies this`outputFolder
      ensures outputFolder == RunFolder(old(outputFolder), spectraFiles, timestamp)
    {
      if outputFolder == [] {
        outputFolder := DefaultOutputFolder(spectraFiles[0].filePath);
      }
      outputFolder := Text.ReplaceAll(outputFolder, DateTimeToken, timestamp);
    }

    /** The design check of RunAllTasks: it is made once for each normalizing
        search, always with the same result, and the first failure stops the run. */
    method DesignCheckForRun(tasks: seq<PreRunTask>, files: seq<SpectraFile>, designLines: Option<seq<string>>)
      returns (check: DesignCheck)
      ensures check == (if HasNormalizingSearch(tasks) then CheckDesign(files, designLines) else DesignOk)
    {
      ghost var verdict := CheckDesign(files, designLines);
      check := DesignOk;
      var j := 0;
      while j < |tasks|
        invariant j <= |tasks|
        invariant check == DesignOk
        invariant forall k :: 0 <= k < j ==> !NormalizingSearch(tasks[k]) || verdict == DesignOk
      {
        if NormalizingSearch(tasks[j]) {
          check := CheckDesign(files, designLines);
          if check != DesignOk {
            return;
          }
        }
        j := j + 1;
      }
    }

    /** The index of the in-run task an event addresses, or why there is none. */
    function Root(ids: seq<string>): (r: TreeOutcome)
      reads this
      ensures r == Updated <==> ids != [] && FirstWithId(inProgressTasks, ids[0]) < |inProgressTasks|
      ensures r == NoIds <==> ids == [] && inProgressTasks != []
    {
      if inProgressTasks == [] then NoSuchTask
      else if ids == [] then NoIds
      else if FirstWithId(inProgressTasks, ids[0]) < |inProgressTasks| then Updated
      else NoSuchTask
    }

    /** NewoutLabelStatus: walks the ids, opening missing collections, sets the
        status and makes the progress indeterminate. */
    method NewoutLabelStatus(ids: seq<string>, status: string) returns (r: TreeOutcome)
      modifies this`inProgressTasks
      ensures r == old(Root(ids))
      ensures r != Updated ==> inProgressTasks == old(inProgressTasks)
      ensures r == Updated ==>
        var j := FirstWithId(old(inProgressTasks), ids[0]);
        inProgressTasks == old(inProgressTasks)[j := WalkCreate(old(inProgressTasks)[j], ids[1..], SetLabel(status))]
    {
      r := Root(ids);
      if r == Updated {
        var j := FirstWithId(inProgressTasks, ids[0]);
        var t := FindOrCreate(inProgressTasks[j], ids[1..], SetLabel(status));
        inProgressTasks := inProgressTasks[j := t];
      }
    }

    /** NewoutProgressBar: walks the ids, opening missing collections, sets the
        status and the progress, and makes the progress determinate. */
    method NewoutProgressBar(ids: seq<string>, status: string, progress: int) returns (r: TreeOutcome)
      modifies this`inProgressTasks
      ensures r == old(Root(ids))
      ensures r != Updated ==> inProgressTasks == old(inProgressTasks)
      ensures r == Updated ==>
        var j := FirstWithId(old(inProgressTasks), ids[0]);
        inProgressTasks == old(inProgressTasks)[j := WalkCreate(old(inProgressTasks)[j], ids[1..], SetProgress(status, progress))]
    {
      r := Root(ids);
      if r == Updated {
        var j := FirstWithId(inProgressTasks, ids[0]);
        var t := FindOrCreate(inProgressTasks[j], ids[1..], SetProgress(status, progress));
        inProgressTasks := inProgressTasks[j := t];
      }
    }

    /** AddBranchToTreeViewHandler: walks the ids between the first and the
        last, opening missing collections, then always appends a collection
        with display name s and the last id. */
    method AddBranchToTreeView(ids: seq<string>, s: string) returns (r: TreeOutcome)
      modifies this`inProgressTasks
      ensures r == old(Root(ids))
      ensures r != Updated ==> inProgressTasks == old(inProgressTasks)
      ensures r == Updated ==>
        var j := FirstWithId(old(inProgressTasks), ids[0]);
        var inner := if |ids| >= 2 then ids[1..|ids| - 1] else [];
        inProgressTasks == old(inProgressTasks)[j := WalkCreate(old(inProgressTasks)[j], inner,
                                                                 AddChild(NewCollection(s, ids[|ids| - 1])))]
    {
      r := Root(ids);
      if r == Updated {
        var j := FirstWithId(inProgressTasks, ids[0]);
        var inner := if |ids| >= 2 then ids[1..|ids| - 1] else [];
        var t := FindOrCreate(inProgressTasks[j], inner, AddChild(NewCollection(s, ids[|ids| - 1])));
        inProgressTasks := inProgressTasks[j := t];
      }
    }

    /** FinishedWritingFile: walks the ids, skipping missing ones, and appends
        a leaf for the written file, named by its file name. */
    method FinishedWritingFile(ids: seq<string>, writtenFile: string) returns (r: TreeOutcome)
      modifies this`inProgressTasks
      ensures r == old(Root(ids))
      ensures r != Updated ==> inProgressTasks == old(inProgressTasks)
      ensures r == Updated ==>
        var j := FirstWithId(old(inProgressTasks), ids[0]);
        inProgressTasks == old(inProgressTasks)[j := WalkSkip(old(inProgressTasks)[j], ids[1..],
                                                               AddChild(NewOutputFile(writtenFile, Paths.FileName(writtenFile))))]
    {
      r := Root(ids);
      if r == Updated {
        var j := FirstWithId(inProgressTasks, ids[0]);
        var t := FindSkipping(inProgressTasks[j], ids[1..], AddChild(NewOutputFile(writtenFile, Paths.FileName(writtenFile))));
        inProgressTasks := inProgressTasks[j := t];
      }
    }
  }
}
