/** The entries the main window keeps before a run (spectra files, protein
    databases and configured tasks) and the pure rules it applies to them:
    the names tasks get from their position, how a dropped file is classified,
    how the lists are merged after calibration and GPTMD, the experimental
    design check and the output folder. The window's methods that apply these
    rules to its lists are in the MainWindowModel module. */
module RunSetup {
  import opened Decimal
  import opened Optional
  import Text
  import Paths

  // ---- entries ----

  datatype TaskType = Search | Calibrate | Gptmd | XLSearch | GlycoSearch

  /** A configured task: its type, the descriptor that names it, and whether a
      search normalizes (which needs an experimental design). */
  datatype TaskSpec = TaskSpec(taskType: TaskType, descriptor: string, normalize: bool)

  datatype PreRunTask = PreRunTask(displayName: string, task: TaskSpec)

  datatype SpectraFile = SpectraFile(filePath: string, fileName: string, use: bool)

  datatype ProteinDb = ProteinDb(filePath: string, use: bool)

  /** A new spectra-file row: its file name is the last part of the path, and it is in use. */
  function NewSpectraFile(filePath: string): (f: SpectraFile)
    ensures f.filePath == filePath && f.use
    ensures f.fileName == Paths.FileName(filePath)
  {
    SpectraFile(filePath, Paths.FileName(filePath), true)
  }

  function NewProteinDb(filePath: string): ProteinDb {
    ProteinDb(filePath, true)
  }

  /** A task row as first built; its name is replaced at once by renaming. */
  function NewPreRunTask(task: TaskSpec): PreRunTask {
    PreRunTask(task.descriptor, task)
  }

  // ---- task names ----

  /** The name of the task at position i: "Task" + (i + 1) + "-" + descriptor. */
  function TaskName(i: nat, descriptor: string): string {
    "Task" + NatToString(i + 1) + "-" + descriptor
  }

  /** Names given by position never collide: the name determines both the
      position and the descriptor, so tasks at different positions get
      different names even when their descriptors are equal. */
  lemma TaskNameInjective(i: nat, j: nat, a: string, b: string)
    requires TaskName(i, a) == TaskName(j, b)
    ensures i == j && a == b
  {
    var d1, d2 := NatToString(i + 1), NatToString(j + 1);
    var s := TaskName(i, a);
    assert s == "Task" + d1 + "-" + a;
    assert s == "Task" + d2 + "-" + b;
    assert d1 + "-" + a == s[4..] == d2 + "-" + b;
    if |d1| < |d2| {
      DashEndsDigits(d1, d2, a, b);
    } else if |d2| < |d1| {
      DashEndsDigits(d2, d1, b, a);
    }
    assert d1 == s[4..4 + |d1|] == d2;
    NatToStringInjective(i + 1, j + 1);
    assert a == s[5 + |d1|..] == b;
  }

  /** A dash right after a shorter run of digits cannot line up with a longer run. */
  lemma DashEndsDigits(d1: string, d2: string, a: string, b: string)
    requires AllDigits(d2) && |d1| < |d2|
    ensures d1 + "-" + a != d2 + "-" + b
  {
    assert (d1 + "-" + a)[|d1|] == '-';
    assert (d2 + "-" + b)[|d1|] == d2[|d1|];
  }

  /** The task list after renaming: each task keeps its configuration and is
      named by its position. */
  function Renamed(tasks: seq<PreRunTask>): (r: seq<PreRunTask>)
    ensures |r| == |tasks|
    ensures forall i :: 0 <= i < |tasks| ==>
              r[i] == PreRunTask(TaskName(i, tasks[i].task.descriptor), tasks[i].task)
  {
    seq(|tasks|, i requires 0 <= i < |tasks| => PreRunTask(TaskName(i, tasks[i].task.descriptor), tasks[i].task))
  }

  /** After renaming no two tasks share a name, and renaming again changes nothing. */
  lemma RenamedNamesDistinct(tasks: seq<PreRunTask>)
    ensures forall i, j :: 0 <= i < j < |tasks| ==> Renamed(tasks)[i].displayName != Renamed(tasks)[j].displayName
    ensures Renamed(Renamed(tasks)) == Renamed(tasks)
  {
    var r := Renamed(tasks);
    forall i, j | 0 <= i < j < |tasks| ensures r[i].displayName != r[j].displayName {
      if r[i].displayName == r[j].displayName {
        TaskNameInjective(i, j, tasks[i].task.descriptor, tasks[j].task.descriptor);
      }
    }
  }

  /** The (name, task) pairs the run hands to the engine, in list order. */
  function InRunTasks(tasks: seq<PreRunTask>): (r: seq<(string, TaskSpec)>)
    ensures |r| == |tasks|
    ensures forall i :: 0 <= i < |tasks| ==> r[i] == (TaskName(i, tasks[i].task.descriptor), tasks[i].task)
  {
    seq(|tasks|, i requires 0 <= i < |tasks| => (TaskName(i, tasks[i].task.descriptor), tasks[i].task))
  }

  /** The in-run list uses the same names, in the same order, as the renamed task list. */
  lemma InRunNamesMatchRenamed(tasks: seq<PreRunTask>, i: nat)
    requires i < |tasks|
    ensures InRunTasks(tasks)[i].0 == Renamed(tasks)[i].displayName
    ensures InRunTasks(tasks)[i].1 == Renamed(tasks)[i].task
  {
  }

  // ---- moving a task ----

  /** The index a task moves to: the next one when moving up, the previous one otherwise. */
  function MoveTarget(k: nat, moveTaskUp: bool): int {
    if moveTaskUp then k + 1 else k - 1
  }

  /** Entries k and t exchanged. */
  function Swapped<T>(s: seq<T>, k: nat, t: nat): (r: seq<T>)
    requires k < |s| && t < |s|
    ensures |r| == |s| && r[k] == s[t] && r[t] == s[k]
    ensures forall i :: 0 <= i < |s| && i != k && i != t ==> r[i] == s[i]
  {
    s[k := s[t]][t := s[k]]
  }

  /** A swap is a permutation, and swapping back restores the list. */
  lemma SwapIsPermutation<T>(s: seq<T>, k: nat, t: nat)
    requires k < |s| && t < |s|
    ensures multiset(Swapped(s, k, t)) == multiset(s)
    ensures Swapped(Swapped(s, k, t), t, k) == s
  {
  }

  /** Moving a task up and then moving it down again gives back the original order. */
  lemma MoveUpThenDown<T>(s: seq<T>, k: nat)
    requires k + 1 < |s|
    ensures MoveTarget(k, true) == k + 1 && MoveTarget(k + 1, false) == k
    ensures Swapped(Swapped(s, k, k + 1), k + 1, k) == s
  {
    SwapIsPermutation(s, k, k + 1);
  }

  // ---- merging after calibration and GPTMD ----

  function SpectraPaths(files: seq<SpectraFile>): (ps: seq<string>)
    ensures |ps| == |files|
    ensures forall i :: 0 <= i < |files| ==> ps[i] == files[i].filePath
  {
    seq(|files|, i requires 0 <= i < |files| => files[i].filePath)
  }

  /** The paths of newFiles that are not in present, in the order of newFiles;
      a path listed twice is kept twice. */
  function Missing(newFiles: seq<string>, present: seq<string>): (r: seq<string>)
    ensures |r| <= |newFiles|
  {
    if newFiles == [] then []
    else
      var last := newFiles[|newFiles| - 1];
      Missing(newFiles[..|newFiles| - 1], present) + (if last in present then [] else [last])
  }

  /** Missing keeps exactly the paths of newFiles that are not present. */
  lemma {:induction false} MissingMembers(newFiles: seq<string>, present: seq<string>)
    ensures forall p :: p in Missing(newFiles, present) <==> p in newFiles && p !in present
  {
    if newFiles != [] {
      var last := newFiles[|newFiles| - 1];
      MissingMembers(newFiles[..|newFiles| - 1], present);
      assert newFiles == newFiles[..|newFiles| - 1] + [last];
    }
  }

  /** The first loop after calibration: an entry whose path is not among the new files is switched off. */
  function MarkUncalibrated(files: seq<SpectraFile>, newFiles: seq<string>): (r: seq<SpectraFile>)
    ensures |r| == |files|
    ensures forall i :: 0 <= i < |files| ==>
              r[i] == if files[i].filePath in newFiles then files[i] else files[i].(use := false)
  {
    seq(|files|, i requires 0 <= i < |files| =>
      if files[i].filePath in newFiles then files[i] else files[i].(use := false))
  }

  function NewSpectraFiles(paths: seq<string>): (r: seq<SpectraFile>)
    ensures |r| == |paths| && forall i :: 0 <= i < |paths| ==> r[i] == NewSpectraFile(paths[i])
  {
    seq(|paths|, i requires 0 <= i < |paths| => NewSpectraFile(paths[i]))
  }

  /** The spectra list after calibration wrote the files newFiles. */
  function MergeCalibrated(files: seq<SpectraFile>, newFiles: seq<string>): (r: seq<SpectraFile>)
    ensures |files| <= |r|
    // the existing entries keep their place, path and name; they stay in use
    // only when they were and their path is among the new files
    ensures forall i :: 0 <= i < |files| ==>
              r[i].filePath == files[i].filePath && r[i].fileName == files[i].fileName
              && (r[i].use <==> files[i].use && files[i].filePath in newFiles)
    // the appended entries are new, in use, and were not listed before
    ensures forall i :: |files| <= i < |r| ==>
              r[i].use && r[i].filePath in newFiles && r[i].filePath !in SpectraPaths(files)
    // every new file is listed afterwards
    ensures forall p :: p in newFiles ==> p in SpectraPaths(r)
  {
    var r := MarkUncalibrated(files, newFiles) + NewSpectraFiles(Missing(newFiles, SpectraPaths(files)));
    MissingMembers(newFiles, SpectraPaths(files));
    MergedListsEveryNewFile(files, newFiles, r);
    r
  }

  lemma MergedListsEveryNewFile(files: seq<SpectraFile>, newFiles: seq<string>, r: seq<SpectraFile>)
    requires r == MarkUncalibrated(files, newFiles) + NewSpectraFiles(Missing(newFiles, SpectraPaths(files)))
    ensures forall p :: p in newFiles ==> p in SpectraPaths(r)
  {
    var present := SpectraPaths(files);
    var a := MarkUncalibrated(files, newFiles);
    var m := Missing(newFiles, present);
    MissingMembers(newFiles, present);
    var b := NewSpectraFiles(m);
    var rp := SpectraPaths(r);
    forall p | p in newFiles ensures p in rp {
      if p in present {
        var i :| 0 <= i < |present| && present[i] == p;
        assert r[i] == a[i];
        assert rp[i] == p;
      } else {
        assert p in m;
        var j :| 0 <= j < |m| && m[j] == p;
        assert r[|a| + j] == b[j];
        assert rp[|a| + j] == p;
      }
    }
  }

  /** One more path considered: it is appended when not present. */
  lemma MissingSnoc(newFiles: seq<string>, present: seq<string>, j: nat)
    requires j < |newFiles|
    ensures Missing(newFiles[..j + 1], present)
         == Missing(newFiles[..j], present) + (if newFiles[j] in present then [] else [newFiles[j]])
  {
    assert newFiles[..j + 1][..j] == newFiles[..j];
  }

  lemma NewSpectraFilesSnoc(paths: seq<string>, p: string)
    ensures NewSpectraFiles(paths + [p]) == NewSpectraFiles(paths) + [NewSpectraFile(p)]
  {
  }

  /** One step of the loop that appends the calibrated files: the list grows
      by the next path exactly when that path was not listed. */
  lemma AppendMissingStep(listed: seq<SpectraFile>, newFiles: seq<string>, present: seq<string>, j: nat)
    requires j < |newFiles|
    ensures listed + NewSpectraFiles(Missing(newFiles[..j + 1], present))
         == listed + NewSpectraFiles(Missing(newFiles[..j], present))
            + (if newFiles[j] in present then [] else [NewSpectraFile(newFiles[j])])
  {
    var before := Missing(newFiles[..j], present);
    var after := Missing(newFiles[..j + 1], present);
    MissingSnoc(newFiles, present, j);
    var added := NewSpectraFiles(before);
    if newFiles[j] !in present {
      var entry := NewSpectraFile(newFiles[j]);
      assert after == before + [newFiles[j]];
      NewSpectraFilesSnoc(before, newFiles[j]);
      assert NewSpectraFiles(after) == added + [entry];
      assert (listed + added) + [entry] == listed + (added + [entry]);
    } else {
      assert after == before + [] == before;
      assert listed + added + [] == listed + added;
    }
  }

  function NewProteinDbs(paths: seq<string>): (r: seq<ProteinDb>)
    ensures |r| == |paths| && forall i :: 0 <= i < |paths| ==> r[i] == NewProteinDb(paths[i])
  {
    seq(|paths|, i requires 0 <= i < |paths| => NewProteinDb(paths[i]))
  }

  function AllUnused(dbs: seq<ProteinDb>): (r: seq<ProteinDb>)
    ensures |r| == |dbs| && forall i :: 0 <= i < |dbs| ==> r[i] == dbs[i].(use := false)
  {
    seq(|dbs|, i requires 0 <= i < |dbs| => dbs[i].(use := false))
  }

  /** The database list after GPTMD wrote the databases newDbs. */
  function MergeGptmd(dbs: seq<ProteinDb>, newDbs: seq<string>): seq<ProteinDb> {
    AllUnused(dbs) + NewProteinDbs(newDbs)
  }

  /** The paths of the spectra files in use, in list order. */
  function UsedSpectraPaths(files: seq<SpectraFile>): (ps: seq<string>)
    ensures forall p :: p in ps ==> exists i :: 0 <= i < |files| && files[i].use && files[i].filePath == p
  {
    if files == [] then []
    else
      var last := files[|files| - 1];
      UsedSpectraPaths(files[..|files| - 1]) + (if last.use then [last.filePath] else [])
  }

  /** Every spectra row in use reaches the engine: the converse of
      UsedSpectraPaths's own contract. */
  lemma {:induction false} UsedSpectraPathsComplete(files: seq<SpectraFile>)
    ensures forall i :: 0 <= i < |files| && files[i].use ==> files[i].filePath in UsedSpectraPaths(files)
  {
    if files != [] {
      var init := files[..|files| - 1];
      UsedSpectraPathsComplete(init);
      forall i | 0 <= i < |files| && files[i].use ensures files[i].filePath in UsedSpectraPaths(files) {
        if i < |init| {
          assert files[i] == init[i];
        }
      }
    }
  }

  /** The spectra files in use of two lists are those of each, in list order. */
  lemma {:induction false} UsedSpectraPathsAppend(a: seq<SpectraFile>, b: seq<SpectraFile>)
    ensures UsedSpectraPaths(a + b) == UsedSpectraPaths(a) + UsedSpectraPaths(b)
  {
    if b != [] {
      assert (a + b)[..|a + b| - 1] == a + b[..|b| - 1];
      UsedSpectraPathsAppend(a, b[..|b| - 1]);
    } else {
      assert a + b == a;
    }
  }

  /** The paths of the databases in use, in list order. */
  function UsedDatabasePaths(dbs: seq<ProteinDb>): seq<string> {
    if dbs == [] then []
    else
      var last := dbs[|dbs| - 1];
      UsedDatabasePaths(dbs[..|dbs| - 1]) + (if last.use then [last.filePath] else [])
  }

  lemma {:induction false} UsedDatabasePathsAppend(a: seq<ProteinDb>, b: seq<ProteinDb>)
    ensures UsedDatabasePaths(a + b) == UsedDatabasePaths(a) + UsedDatabasePaths(b)
  {
    if b != [] {
      assert (a + b)[..|a + b| - 1] == a + b[..|b| - 1];
      UsedDatabasePathsAppend(a, b[..|b| - 1]);
    } else {
      assert a + b == a;
    }
  }

  lemma {:induction false} UsedOfAllUnused(dbs: seq<ProteinDb>)
    ensures UsedDatabasePaths(AllUnused(dbs)) == []
  {
    if dbs != [] {
      assert AllUnused(dbs)[..|dbs| - 1] == AllUnused(dbs[..|dbs| - 1]);
      UsedOfAllUnused(dbs[..|dbs| - 1]);
    }
  }

  lemma {:induction false} UsedOfNewDbs(paths: seq<string>)
    ensures UsedDatabasePaths(NewProteinDbs(paths)) == paths
  {
    if paths != [] {
      assert NewProteinDbs(paths)[..|paths| - 1] == NewProteinDbs(paths[..|paths| - 1]);
      UsedOfNewDbs(paths[..|paths| - 1]);
      assert paths[..|paths| - 1] + [paths[|paths| - 1]] == paths;
    }
  }

  /** After GPTMD every earlier database is kept but switched off, and the
      databases in use are exactly the new ones, in order, repeats included. */
  lemma MergeGptmdUsesOnlyNewDatabases(dbs: seq<ProteinDb>, newDbs: seq<string>)
    ensures |MergeGptmd(dbs, newDbs)| == |dbs| + |newDbs|
    ensures forall i :: 0 <= i < |dbs| ==>
              MergeGptmd(dbs, newDbs)[i].filePath == dbs[i].filePath && !MergeGptmd(dbs, newDbs)[i].use
    ensures UsedDatabasePaths(MergeGptmd(dbs, newDbs)) == newDbs
  {
    UsedDatabasePathsAppend(AllUnused(dbs), NewProteinDbs(newDbs));
    UsedOfAllUnused(dbs);
    UsedOfNewDbs(newDbs);
  }

  /** After calibration only calibrated files remain in use. */
  lemma MergeCalibratedUsesOnlyNewFiles(files: seq<SpectraFile>, newFiles: seq<string>)
    ensures forall p :: p in UsedSpectraPaths(MergeCalibrated(files, newFiles)) ==> p in newFiles
  {
    var r := MergeCalibrated(files, newFiles);
    forall p | p in UsedSpectraPaths(r) ensures p in newFiles {
      var i :| 0 <= i < |r| && r[i].use && r[i].filePath == p;
    }
  }

  // ---- classifying a dropped file ----

  /** The extension the switch tests, and whether the file is compressed: the
      file name's extension, lower-cased; when it ends in "gz" the file is
      compressed and the extension before it is used instead. */
  function ExtensionOf(filePath: string): (string, bool) {
    var filename := Paths.FileName(filePath);
    var ext := Text.Lower(Paths.Extension(filename));
    var compressed := Text.EndsWith(ext, "gz");
    (if compressed then Text.Lower(Paths.Extension(Paths.FileNameWithoutExtension(filename))) else ext, compressed)
  }

  datatype FileKind =
    | SpectraKind(ext: string, compressed: bool)
    | DatabaseKind(ext: string, compressed: bool)
    | TaskToml(compressed: bool)
    | Unrecognized(ext: string)

  /** The cases of the switch on the extension. */
  function KindOf(ext: string, compressed: bool): (k: FileKind)
    ensures k.SpectraKind? <==> ext in {".raw", ".mgf", ".mzml"}
    ensures k.DatabaseKind? <==> ext in {".xml", ".fasta", ".fa"}
    ensures k.TaskToml? <==> ext == ".toml"
    ensures !k.TaskToml? ==> k.ext == ext
    ensures !k.Unrecognized? ==> k.compressed == compressed
  {
    if ext == ".raw" || ext == ".mgf" || ext == ".mzml" then SpectraKind(ext, compressed)
    else if ext == ".xml" || ext == ".fasta" || ext == ".fa" then DatabaseKind(ext, compressed)
    else if ext == ".toml" then TaskToml(compressed)
    else Unrecognized(ext)
  }

  function Classify(filePath: string): FileKind {
    var (ext, compressed) := ExtensionOf(filePath);
    KindOf(ext, compressed)
  }

  /** A file dir\stem.ext, where ext is a dot and text without dots, is
      classified by ext in lower case; the dots in the folder names and in
      the stem do not matter. */
  lemma ClassifyPlainFile(dir: string, stem: string, ext: string)
    requires Paths.NoSeparator(stem) && |ext| >= 2 && ext[0] == '.'
    requires '.' !in ext[1..] && Paths.NoSeparator(ext)
    requires !Text.EndsWith(Text.Lower(ext), "gz")
    ensures Classify(dir + "\\" + stem + ext) == KindOf(Text.Lower(ext), false)
  {
    var name := stem + ext;
    NameHasNoSeparator(stem, ext);
    Paths.FileNameAfterSeparator(dir, '\\', name);
    assert dir + "\\" + stem + ext == dir + ['\\'] + name;
    Paths.ExtensionOfStemAndExt(stem, ext);
    assert ExtensionOf(dir + "\\" + stem + ext) == (Text.Lower(ext), false);
  }

  lemma NameHasNoSeparator(stem: string, ext: string)
    requires Paths.NoSeparator(stem) && Paths.NoSeparator(ext)
    ensures Paths.NoSeparator(stem + ext)
  {
    var name := stem + ext;
    forall i | 0 <= i < |name| ensures !Paths.IsSeparator(name[i]) {
      if i >= |stem| {
        assert name[i] == ext[i - |stem|];
      }
    }
  }

  /** A file dir\stem.ext.gz is compressed and classified by ext in lower case. */
  lemma ClassifyCompressedFile(dir: string, stem: string, ext: string)
    requires Paths.NoSeparator(stem) && |ext| >= 2 && ext[0] == '.'
    requires '.' !in ext[1..] && Paths.NoSeparator(ext)
    ensures Classify(dir + "\\" + stem + ext + ".gz") == KindOf(Text.Lower(ext), true)
  {
    var inner := stem + ext;
    var gz := ".gz";
    var name := inner + gz;
    NameHasNoSeparator(stem, ext);
    assert Paths.NoSeparator(gz);
    NameHasNoSeparator(inner, gz);
    Paths.FileNameAfterSeparator(dir, '\\', name);
    var filePath := dir + "\\" + stem + ext + ".gz";
    assert filePath == dir + ['\\'] + name;
    assert Paths.FileName(filePath) == name;
    assert '.' !in gz[1..];
    Paths.ExtensionOfStemAndExt(inner, gz);
    assert Paths.Extension(name) == gz;
    assert Text.Lower(gz) == gz;
    assert Text.EndsWith(gz, "gz");
    Paths.FileNameOfPlainName(name);
    assert Paths.FileNameWithoutExtension(name) == inner;
    Paths.ExtensionOfStemAndExt(stem, ext);
    assert ExtensionOf(filePath) == (Text.Lower(ext), true);
  }

  // ---- the experimental design ----

  /** The key of a design line: the text before its first tab. */
  function DesignKey(line: string): string {
    Text.Split(line, '\t')[0]
  }

  function DesignKeys(lines: seq<string>): (keys: seq<string>)
    ensures |keys| == |lines| && forall i :: 0 <= i < |lines| ==> keys[i] == DesignKey(lines[i])
  {
    seq(|lines|, i requires 0 <= i < |lines| => DesignKey(lines[i]))
  }

  /** The name a spectra file must have in the design: its file name without extension. */
  function DesignName(f: SpectraFile): string {
    Paths.FileNameWithoutExtension(f.fileName)
  }

  /** The first spectra file, in list order, whose name is not a key. */
  function FirstUndefined(files: seq<SpectraFile>, keys: seq<string>): (r: Option<string>)
    ensures r.None? <==> forall i :: 0 <= i < |files| ==> DesignName(files[i]) in keys
    ensures r.Some? ==> exists i :: 0 <= i < |files| && DesignName(files[i]) == r.value
                          && r.value !in keys
                          && forall j :: 0 <= j < i ==> DesignName(files[j]) in keys
  {
    if files == [] then None
    else if DesignName(files[0]) !in keys then Some(DesignName(files[0]))
    else
      var r := FirstUndefined(files[1..], keys);
      FirstUndefinedStep(files, keys, r);
      r
  }

  /** The step of FirstUndefined past a first file whose name is defined. */
  lemma FirstUndefinedStep(files: seq<SpectraFile>, keys: seq<string>, r: Option<string>)
    requires files != [] && DesignName(files[0]) in keys
    requires r.None? <==> forall i :: 0 <= i < |files| - 1 ==> DesignName(files[1..][i]) in keys
    requires r.Some? ==> exists i :: 0 <= i < |files| - 1 && DesignName(files[1..][i]) == r.value
                          && r.value !in keys
                          && forall j :: 0 <= j < i ==> DesignName(files[1..][j]) in keys
    ensures r.None? <==> forall i :: 0 <= i < |files| ==> DesignName(files[i]) in keys
    ensures r.Some? ==> exists i :: 0 <= i < |files| && DesignName(files[i]) == r.value
                          && r.value !in keys
                          && forall j :: 0 <= j < i ==> DesignName(files[j]) in keys
  {
    if r.Some? {
      var i :| 0 <= i < |files| - 1 && DesignName(files[1..][i]) == r.value && r.value !in keys
               && forall j :: 0 <= j < i ==> DesignName(files[1..][j]) in keys;
      assert DesignName(files[i + 1]) == r.value;
      forall j | 0 <= j < i + 1 ensures DesignName(files[j]) in keys {
        if j > 0 {
          assert files[j] == files[1..][j - 1];
        }
      }
      assert !(forall k :: 0 <= k < |files| ==> DesignName(files[k]) in keys) by {
        assert DesignName(files[i + 1]) !in keys;
      }
    } else {
      forall i | 0 <= i < |files| ensures DesignName(files[i]) in keys {
        if i > 0 {
          assert files[i] == files[1..][i - 1];
        }
      }
    }
  }

  predicate DistinctKeys(keys: seq<string>) {
    forall i, j :: 0 <= i < j < |keys| ==> keys[i] != keys[j]
  }

  datatype DesignCheck =
    | DesignOk
    | DesignMissing
    | DuplicateDesignKey   // building the dictionary throws and is not caught
    | UndefinedFile(name: string)

  /** The check made before a run with a normalizing search: the design file
      must exist, its keys must be distinct, and every spectra file (in use or
      not) must be one of them. lines is None when the file does not exist. */
  function CheckDesign(files: seq<SpectraFile>, lines: Option<seq<string>>): DesignCheck {
    if lines.None? then DesignMissing
    else if !DistinctKeys(DesignKeys(lines.value)) then DuplicateDesignKey
    else
      match FirstUndefined(files, DesignKeys(lines.value))
      case Some(name) => UndefinedFile(name)
      case None => DesignOk
  }

  /** The run may go ahead exactly when the design exists, its keys are
      distinct, and it defines every spectra file. */
  lemma CheckDesignPasses(files: seq<SpectraFile>, lines: Option<seq<string>>)
    ensures CheckDesign(files, lines) == DesignOk <==>
              lines.Some? && DistinctKeys(DesignKeys(lines.value))
              && forall i :: 0 <= i < |files| ==> DesignName(files[i]) in DesignKeys(lines.value)
  {
  }

  // ---- the output folder ----

  const DateTimeToken: string := "$DATETIME"

  /** The default output folder: $DATETIME inside the first spectra file's folder. */
  function DefaultOutputFolder(firstSpectraPath: string): (folder: string)
    ensures Text.EndsWith(folder, DateTimeToken)
  {
    Paths.Combine(Paths.DirectoryName(firstSpectraPath), DateTimeToken)
  }

  /** A timestamp in the form yyyy-MM-dd-HH-mm-ss. */
  predicate IsTimestamp(ts: string) {
    |ts| == 19
    && (forall i :: 0 <= i < 19 && i !in {4, 7, 10, 13, 16} ==> IsDigit(ts[i]))
    && ts[4] == '-' && ts[7] == '-' && ts[10] == '-' && ts[13] == '-' && ts[16] == '-'
  }

  /** No $DATETIME is left once the timestamp has been substituted. */
  lemma NoTokenAfterSubstitution(folder: string, ts: string)
    requires IsTimestamp(ts)
    ensures !Text.Occurs(Text.ReplaceAll(folder, DateTimeToken, ts), DateTimeToken)
  {
    assert Text.SharesNoChar(ts, DateTimeToken) by {
      forall i | 0 <= i < |ts| ensures ts[i] !in DateTimeToken {
        assert IsDigit(ts[i]) || ts[i] == '-';
      }
    }
    Text.ReplaceAllRemovesEveryOccurrence(folder, DateTimeToken, ts);
  }

  /** Text that does not contain the token's first character is copied unchanged. */
  lemma {:induction false} ReplaceAllAfterPlainText(a: string, tail: string, rep: string)
    requires '$' !in a
    ensures Text.ReplaceAll(a + tail, DateTimeToken, rep) == a + Text.ReplaceAll(tail, DateTimeToken, rep)
  {
    var s := a + tail;
    if a != [] {
      if |s| < |DateTimeToken| {
        assert Text.ReplaceAll(tail, DateTimeToken, rep) == tail;
      } else {
        assert s[0] == a[0] && s[..|DateTimeToken|][0] == s[0];
        assert s[1..] == a[1..] + tail;
        ReplaceAllAfterPlainText(a[1..], tail, rep);
        assert [a[0]] + a[1..] == a;
      }
    } else {
      assert s == tail;
    }
  }

  /** With the default folder, and a folder path without '$', the output
      folder becomes the timestamp inside the first spectra file's folder. */
  lemma DefaultFolderGetsTimestamp(firstSpectraPath: string, ts: string)
    requires '$' !in Paths.DirectoryName(firstSpectraPath) && IsTimestamp(ts)
    ensures Text.ReplaceAll(DefaultOutputFolder(firstSpectraPath), DateTimeToken, ts)
         == Paths.Combine(Paths.DirectoryName(firstSpectraPath), ts)
  {
    var dir := Paths.DirectoryName(firstSpectraPath);
    var sep: string := if dir == [] || Paths.IsSeparator(dir[|dir| - 1]) then [] else "\\";
    assert Paths.Combine(dir, DateTimeToken) == (dir + sep) + DateTimeToken;
    assert '$' !in dir + sep;
    ReplaceAllAfterPlainText(dir + sep, DateTimeToken, ts);
    assert Text.ReplaceAll(DateTimeToken, DateTimeToken, ts) == ts + Text.ReplaceAll([], DateTimeToken, ts);
    assert Paths.Combine(dir, ts) == (dir + sep) + ts;
  }

  /** The output folder after a change to the spectra list: cleared when the
      list is empty, set to the default when it is blank, otherwise kept. */
  function UpdatedOutputFolder(current: string, files: seq<SpectraFile>): (folder: string)
    ensures files == [] ==> folder == ""
    ensures files != [] && !Text.IsBlank(current) ==> folder == current
    ensures files != [] ==> !Text.IsBlank(folder)
  {
    if files == [] then ""
    else if Text.IsBlank(current) then
      var d := DefaultOutputFolder(files[0].filePath);
      assert d[|d| - 1] == 'E';
      d
    else current
  }

  /** Updating twice is updating once: a folder already set is never overwritten. */
  lemma UpdatedOutputFolderIdempotent(current: string, files: seq<SpectraFile>)
    ensures UpdatedOutputFolder(UpdatedOutputFolder(current, files), files) == UpdatedOutputFolder(current, files)
  {
  }

  // ---- starting a run ----

  /** What the run hands to the engine: the named tasks, the paths of the
      spectra files and databases in use, and the output folder. */
  datatype EngineRun = EngineRun(
    tasks: seq<(string, TaskSpec)>,
    spectraFiles: seq<string>,
    databases: seq<string>,
    outputFolder: string)

  datatype RunOutcome =
    | NeedTask
    | NeedSpectraFile
    | NeedDatabase
    | DesignBlocks(check: DesignCheck)
    | Started(run: EngineRun)

  predicate NormalizingSearch(t: PreRunTask) {
    t.task.taskType == Search && t.task.normalize
  }

  predicate HasNormalizingSearch(tasks: seq<PreRunTask>) {
    exists i :: 0 <= i < |tasks| && NormalizingSearch(tasks[i])
  }

  /** The output folder of a run: the default when the box is empty (blank
      but not empty text is kept), with every $DATETIME replaced by the timestamp. */
  function RunFolder(current: string, files: seq<SpectraFile>, timestamp: string): string
    requires files != []
  {
    var folder := if current == [] then DefaultOutputFolder(files[0].filePath) else current;
    Text.ReplaceAll(folder, DateTimeToken, timestamp)
  }

  /** The outcome of pressing Run: the checks in their order, then the engine run. */
  function StartRun(tasks: seq<PreRunTask>, files: seq<SpectraFile>, dbs: seq<ProteinDb>,
                    currentFolder: string, timestamp: string, design: Option<seq<string>>): RunOutcome
  {
    if tasks == [] then NeedTask
    else if files == [] then NeedSpectraFile
    else if dbs == [] then NeedDatabase
    else if HasNormalizingSearch(tasks) && CheckDesign(files, design) != DesignOk then
      DesignBlocks(CheckDesign(files, design))
    else
      Started(EngineRun(InRunTasks(tasks), UsedSpectraPaths(files), UsedDatabasePaths(dbs),
                        RunFolder(currentFolder, files, timestamp)))
  }

  /** The checks come in a fixed order and the first that fails decides:
      tasks, then spectra files, then databases, then the design. */
  lemma StartRunCheckOrder(tasks: seq<PreRunTask>, files: seq<SpectraFile>, dbs: seq<ProteinDb>,
                           currentFolder: string, timestamp: string, design: Option<seq<string>>)
    ensures var o := StartRun(tasks, files, dbs, currentFolder, timestamp, design);
      && (o == NeedTask <==> tasks == [])
      && (o == NeedSpectraFile <==> tasks != [] && files == [])
      && (o == NeedDatabase <==> tasks != [] && files != [] && dbs == [])
      && (o.DesignBlocks? <==> tasks != [] && files != [] && dbs != []
                               && HasNormalizingSearch(tasks) && CheckDesign(files, design) != DesignOk)
  {
  }

  /** A run that starts has distinct task names, a folder free of $DATETIME,
      and, when a search normalizes, a design that defines every spectra file. */
  lemma StartedRunIsWellFormed(tasks: seq<PreRunTask>, files: seq<SpectraFile>, dbs: seq<ProteinDb>,
                               currentFolder: string, timestamp: string, design: Option<seq<string>>)
    requires IsTimestamp(timestamp)
    requires StartRun(tasks, files, dbs, currentFolder, timestamp, design).Started?
    ensures var r := StartRun(tasks, files, dbs, currentFolder, timestamp, design).run;
      && |r.tasks| == |tasks| >= 1
      && (forall i, j :: 0 <= i < j < |r.tasks| ==> r.tasks[i].0 != r.tasks[j].0)
      && !Text.Occurs(r.outputFolder, DateTimeToken)
      && (HasNormalizingSearch(tasks) ==>
            design.Some? && forall i :: 0 <= i < |files| ==> DesignName(files[i]) in DesignKeys(design.value))
  {
    var r := StartRun(tasks, files, dbs, currentFolder, timestamp, design).run;
    forall i, j | 0 <= i < j < |r.tasks| ensures r.tasks[i].0 != r.tasks[j].0 {
      if r.tasks[i].0 == r.tasks[j].0 {
        TaskNameInjective(i, j, tasks[i].task.descriptor, tasks[j].task.descriptor);
      }
    }
    var folder := if currentFolder == [] then DefaultOutputFolder(files[0].filePath) else currentFolder;
    NoTokenAfterSubstitution(folder, timestamp);
    if HasNormalizingSearch(tasks) {
      CheckDesignPasses(files, design);
    }
  }
}
