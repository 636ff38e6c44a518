/**
 * ContentEngine: the queue of content files, its notifications, Build's outcome and
 * disposal. The file system, GetFullPath, the regular-expression engine, the process
 * table and the MSBuild run are inputs.
 */
module Engine {
  import opened Wrappers
  import opened Paths
  import opened FileSystem
  import opened TypeMappings
  import opened ContentFiles
  import opened Scratch
  import opened BuildItems
  import opened Counting

  /** BuildResultCode. */
  datatype BuildResultCode = Succeeded | Failed

  /**
   * How the MSBuild side of one Build call goes: the step at which it throws, or the
   * result code and logged errors of a completed submission.
   */
  datatype EngineRun =
      /** Directory.CreateDirectory throws. */
    | FailsCreatingDirectory(exception: string)
      /** ConstructStandardProject or adding the items throws (for instance Assembly.LoadFile). */
    | FailsConstructingProject(exception: string)
      /** BeginBuild or PendBuildRequest throws: there is no submission yet. */
    | FailsSubmitting(exception: string)
      /** ExecuteAsync or the wait throws before the completion callback runs. */
    | FailsRunning(exception: string)
      /** The submission completes with this result and these logged errors. */
    | Completes(code: BuildResultCode, errors: seq<string>)

  /** The events the engine raises, in the order it raises them. */
  datatype Notification =
    | ItemAdded(file: QueuedContentFile)
    | ItemRemoved(file: QueuedContentFile)
    | BuildStarted(items: seq<ProjectItem>)
    | BuildFinished(buildDirectory: Path, outputDirectory: Path)
      /** `submitted`: whether the submission argument is non-null. */
    | BuildErrored(submitted: bool, messages: seq<string>, exception: Option<string>)

  /**
   * The queue an Add leaves, or the error it throws: the error of the new entry, or the
   * Dictionary.Add failure when the full path is already queued.
   */
  function Enqueue(files: map<string, QueuedContentFile>, entry: Result<QueuedContentFile, Error>)
    : (r: Result<QueuedContentFile, Error>)
    ensures r.Success? <==> entry.Success? && entry.value.filename !in files
    ensures r.Success? ==> r == entry
    ensures entry.Failure? ==> r == entry
    ensures entry.Success? && entry.value.filename in files ==> r == Failure(DuplicateKey(entry.value.filename))
  {
    match entry
    case Failure(e) => Failure(e)
    case Success(q) => if q.filename in files then Failure(DuplicateKey(q.filename)) else Success(q)
  }

  /** The queue is keyed by full path, and each key is its own GetFullPath. */
  ghost predicate KeyedByFullPath(files: map<string, QueuedContentFile>, fullPath: string -> Path) {
    forall k :: k in files ==> files[k].filename == k && Text(fullPath(k)) == k
  }

  /** The file names of a run of removal events. */
  function Subjects(events: seq<Notification>): (r: seq<string>)
    requires forall i :: 0 <= i < |events| ==> events[i].ItemRemoved?
    ensures |r| == |events| && forall i :: 0 <= i < |events| ==> r[i] == events[i].file.filename
  {
    if events == [] then [] else Subjects(events[..|events| - 1]) + [events[|events| - 1].file.filename]
  }

  /** `events` raises ItemRemoved once for every entry of `files`, and for nothing else. */
  predicate RemovalsOf(files: map<string, QueuedContentFile>, events: seq<Notification>) {
    && (forall i :: 0 <= i < |events| ==>
          events[i].ItemRemoved? && events[i].file.filename in files && events[i].file == files[events[i].file.filename])
    && Distinct(Subjects(events))
    && (forall k :: k in files ==> k in Subjects(events))
  }

  class ContentEngine {
    const scratch: ScratchSpace
    const fullPath: string -> Path
    const regexIsMatch: (string, string) -> bool
    const userAssemblies: seq<string>
    const typeMappings: seq<TypeMapping>
    const contentDirectory: Option<string>
    const stripFileExtensions: bool
    const useDefaultTypeMappings: bool
    const failOnUnmappedFiles: bool
    const buildDirectory: Path
    var files: map<string, QueuedContentFile>
    var isDisposed: bool
    ghost var trace: seq<Notification>

    ghost predicate Valid()
      reads this
    {
      IsNormaliser(fullPath) && KeyedByFullPath(files, fullPath)
    }

    /**
     * The constructor: the options as given, and a fresh build directory from the
     * scratch space when none is given.
     */
    constructor (scratch: ScratchSpace, fullPath: string -> Path, regexIsMatch: (string, string) -> bool,
                 userAssemblies: seq<string>, typeMappings: seq<TypeMapping>,
                 contentDirectory: Option<string> := None, buildDirectory: Option<Path> := None,
                 stripFileExtensions: bool := true, useDefaultTypeMappings: bool := true,
                 failOnUnmappedFiles: bool := false)
      requires scratch.Valid() && IsNormaliser(fullPath)
      modifies scratch
      ensures Valid() && scratch.Valid()
      ensures files == map[] && !isDisposed && trace == []
      ensures this.scratch == scratch && this.typeMappings == typeMappings && this.contentDirectory == contentDirectory
      ensures this.stripFileExtensions == stripFileExtensions && this.useDefaultTypeMappings == useDefaultTypeMappings
      ensures this.failOnUnmappedFiles == failOnUnmappedFiles
      ensures this.fullPath == fullPath && this.regexIsMatch == regexIsMatch && this.userAssemblies == userAssemblies
      ensures buildDirectory.Some? ==> this.buildDirectory == buildDirectory.value && scratch.issued == old(scratch.issued)
      ensures buildDirectory.None? ==>
                && this.buildDirectory == BuildDirectoryFor(scratch.processDirectory, old(scratch.salt))
                && scratch.issued == old(scratch.issued) + [this.buildDirectory]
    {
      var dir: Path;
      if buildDirectory.Some? {
        dir := buildDirectory.value;
      } else {
        dir := scratch.ComputeBuildDirectory();
      }
      this.scratch := scratch;
      this.fullPath := fullPath;
      this.regexIsMatch := regexIsMatch;
      this.userAssemblies := userAssemblies;
      this.typeMappings := typeMappings;
      this.contentDirectory := contentDirectory;
      this.stripFileExtensions := stripFileExtensions;
      this.useDefaultTypeMappings := useDefaultTypeMappings;
      this.failOnUnmappedFiles := failOnUnmappedFiles;
      this.buildDirectory := dir;
      files := map[];
      isDisposed := false;
      trace := [];
    }

    /** OutputDirectory: "bin/Content" below the build directory. */
    function OutputDirectory(): (r: Path)
      ensures |r| == |buildDirectory| + 2 && Under(r, buildDirectory)
      ensures r[|buildDirectory|..] == ["bin", "Content"]
    {
      buildDirectory + ["bin", "Content"]
    }

    /** The entry Add(filename, importer, processor) would queue on `disk`. */
    function EntryFor(disk: Disk, filename: string, importerType: Option<TypeId>, processorType: Option<TypeId>)
      : Result<QueuedContentFile, Error>
      requires IsNormaliser(fullPath)
    {
      NewEntry(disk, fullPath, contentDirectory, stripFileExtensions, OutputDirectory(), filename, importerType, processorType)
    }

    /**
     * Add(filename, importer, processor): queue the entry and raise ItemAdded, or throw
     * and leave the queue alone.
     */
    method AddWithTypes(disk: Disk, filename: string, importerType: Option<TypeId>, processorType: Option<TypeId>)
      returns (r: Outcome<Error>)
      requires Valid()
      modifies this
      ensures Valid() && isDisposed == old(isDisposed)
      ensures var e := Enqueue(old(files), EntryFor(disk, filename, importerType, processorType));
              && (e.Failure? ==> r == Fail(e.error) && files == old(files) && trace == old(trace))
              && (e.Success? ==> r == Pass && files == old(files)[e.value.filename := e.value]
                                 && trace == old(trace) + [ItemAdded(e.value)])
    {
      var entry := EntryFor(disk, filename, importerType, processorType);
      if entry.Failure? {
        return Fail(entry.error);
      }
      var q := entry.value;
      if q.filename in files {
        return Fail(DuplicateKey(q.filename));
      }
      files := files[q.filename := q];
      trace := trace + [ItemAdded(q)];
      r := Pass;
    }

    /**
     * Add(filename): resolve the type mapping; without one, throw when unmapped files
     * are refused and otherwise ignore the file; with one, add with its types.
     */
    method Add(disk: Disk, filename: string) returns (r: Outcome<Error>)
      requires Valid()
      modifies this
      ensures Valid() && isDisposed == old(isDisposed)
      ensures var tm := Resolve(typeMappings, useDefaultTypeMappings, filename, regexIsMatch);
              tm.None? ==> (r == if failOnUnmappedFiles then Fail(NoTypeMapping(filename)) else Pass)
                           && files == old(files) && trace == old(trace)
      ensures var tm := Resolve(typeMappings, useDefaultTypeMappings, filename, regexIsMatch);
              tm.Some? ==>
                var e := Enqueue(old(files), EntryFor(disk, filename, tm.value.importerType, tm.value.processorType));
                && (e.Failure? ==> r == Fail(e.error) && files == old(files) && trace == old(trace))
                && (e.Success? ==> r == Pass && files == old(files)[e.value.filename := e.value]
                                   && trace == old(trace) + [ItemAdded(e.value)])
    {
      var tm := Resolve(typeMappings, useDefaultTypeMappings, filename, regexIsMatch);
      if tm.None? {
        return if failOnUnmappedFiles then Fail(NoTypeMapping(filename)) else Pass;
      }
      r := AddWithTypes(disk, filename, tm.value.importerType, tm.value.processorType);
    }

    /**
     * Remove: if the full path is queued, raise ItemRemoved and drop the entry. The
     * result is false whether or not anything was removed.
     */
    method Remove(filename: string) returns (removed: bool)
      requires Valid()
      modifies this
      ensures Valid() && isDisposed == old(isDisposed)
      ensures !removed
      ensures var key := Text(fullPath(filename));
              && (key in old(files) ==> files == old(files) - {key} && trace == old(trace) + [ItemRemoved(old(files)[key])])
              && (key !in old(files) ==> files == old(files) && trace == old(trace))
    {
      var key := Text(fullPath(filename));
      if key in files {
        trace := trace + [ItemRemoved(files[key])];
        files := files - {key};
      }
      removed := false;
    }

    /** Clear: remove every queued file, raising ItemRemoved for each, in no particular order. */
    method Clear()
      requires Valid()
      modifies this
      ensures Valid() && isDisposed == old(isDisposed)
      ensures files == map[]
      ensures |old(trace)| <= |trace| && trace[..|old(trace)|] == old(trace)
      ensures RemovalsOf(old(files), trace[|old(trace)|..])
    {
      var filenames := files.Keys;
      ghost var removals: seq<Notification> := [];
      while filenames != {}
        invariant Valid() && isDisposed == old(isDisposed)
        invariant files.Keys == filenames && filenames <= old(files).Keys
        invariant forall k :: k in files ==> files[k] == old(files)[k]
        invariant trace == old(trace) + removals
        invariant RemovalsOf(old(files) - filenames, removals)
        decreases filenames
      {
        var f :| f in filenames;
        var _ := Remove(f);
        RemovalsGrow(old(files), filenames, removals, f);
        removals := removals + [ItemRemoved(old(files)[f])];
        filenames := filenames - {f};
      }
      assert old(files) - filenames == old(files);
      assert trace[|old(trace)|..] == removals;
    }

    /** The build directory after Build has created it and deleted a stale project file. */
    function PreparedDisk(disk: Disk): (r: Disk)
      ensures buildDirectory in r.dirs && r.dirs >= disk.dirs
      ensures buildDirectory + ["Content.contentproj"] !in r.files
      ensures r.files == disk.files - {buildDirectory + ["Content.contentproj"]}
      ensures forall x :: x in r.dirs && x !in disk.dirs ==> Under(buildDirectory, x)
      ensures r.locked == disk.locked
    {
      var d := if buildDirectory in disk.dirs then disk else CreateDirectory(disk, buildDirectory);
      d.(files := d.files - {buildDirectory + ["Content.contentproj"]})
    }

    /**
     * When `Content.contentproj` was the only project file in the build directory,
     * the prepared disk no longer makes the build directory a project directory.
     */
    lemma PreparedDiskDropsProjectDirectory(disk: Disk)
      requires forall f :: f in disk.files && f != [] && IsProjectFileName(f[|f| - 1]) && Parent(f) == buildDirectory
                 ==> f == buildDirectory + ["Content.contentproj"]
      ensures buildDirectory !in ProjectDirs(PreparedDisk(disk))
    {
      var r := PreparedDisk(disk);
      forall f | f in r.files && f != [] && IsProjectFileName(f[|f| - 1]) ensures Parent(f) != buildDirectory {
        assert f in disk.files;
      }
    }

    /**
     * Build: create the build directory, list one item per queued file, raise
     * BuildStarted, run the submission, raise BuildFinished or BuildErrored from its
     * completion, sweep stale scratch directories, and report success. Any exception
     * raises BuildErrored with the exception and no messages, and Build returns false.
     */
    method Build(run: EngineRun, disk: Disk, alive: int -> bool) returns (ok: bool, after: Disk)
      requires Valid()
      modifies this
      ensures Valid() && files == old(files) && isDisposed == old(isDisposed)
      ensures ok <==> run.Completes? && run.code == Succeeded
      ensures |old(trace)| < |trace| && trace[..|old(trace)|] == old(trace)
      ensures run.FailsCreatingDirectory? ==>
                after == disk && trace == old(trace) + [BuildErrored(false, [], Some(run.exception))]
      ensures run.FailsConstructingProject? ==>
                && after == (if buildDirectory in disk.dirs then disk else CreateDirectory(disk, buildDirectory))
                && trace == old(trace) + [BuildErrored(false, [], Some(run.exception))]
      ensures !run.FailsCreatingDirectory? && !run.FailsConstructingProject? ==>
                && |trace| == |old(trace)| + 2
                && trace[|old(trace)|].BuildStarted? && ItemsFor(files, trace[|old(trace)|].items)
      ensures run.FailsSubmitting? ==>
                after == PreparedDisk(disk) && trace[|trace| - 1] == BuildErrored(false, [], Some(run.exception))
      ensures run.FailsRunning? ==>
                after == PreparedDisk(disk) && trace[|trace| - 1] == BuildErrored(true, [], Some(run.exception))
      ensures run.Completes? ==> after == Swept(PreparedDisk(disk), scratch.baseDirectory, alive)
      ensures run.Completes? && run.code == Succeeded ==>
                trace[|trace| - 1] == BuildFinished(buildDirectory, OutputDirectory())
      ensures run.Completes? && run.code == Failed ==>
                trace[|trace| - 1] == BuildErrored(true, run.errors, None)
    {
      if run.FailsCreatingDirectory? {
        trace := trace + [BuildErrored(false, [], Some(run.exception))];
        return false, disk;
      }
      after := disk;
      if buildDirectory !in after.dirs {
        after := CreateDirectory(after, buildDirectory);
      }
      var projectPath := buildDirectory + ["Content.contentproj"];
      if run.FailsConstructingProject? {
        trace := trace + [BuildErrored(false, [], Some(run.exception))];
        return false, after;
      }
      var items := EmitItems(files);
      trace := trace + [BuildStarted(items)];
      if projectPath in after.files {
        after := after.(files := after.files - {projectPath});
      }
      assert after == PreparedDisk(disk);
      match run
      case FailsSubmitting(exception) =>
        trace := trace + [BuildErrored(false, [], Some(exception))];
        ok := false;
      case FailsRunning(exception) =>
        trace := trace + [BuildErrored(true, [], Some(exception))];
        ok := false;
      case Completes(code, errors) =>
        if code == Succeeded {
          trace := trace + [BuildFinished(buildDirectory, OutputDirectory())];
        } else {
          trace := trace + [BuildErrored(true, errors, None)];
        }
        after := CleanUpOldTempDirectories(after, scratch.baseDirectory, alive);
        ok := code == Succeeded;
    }

    /**
     * Dispose: the first call marks the engine disposed, cleans up its own directories
     * and sweeps stale ones; later calls do nothing.
     */
    method Dispose(disk: Disk, alive: int -> bool) returns (after: Disk)
      requires Valid()
      modifies this
      ensures Valid() && isDisposed && files == old(files) && trace == old(trace)
      ensures old(isDisposed) ==> after == disk
      ensures !old(isDisposed) ==>
                after == Swept(SelfCleanup(disk, buildDirectory, scratch.processDirectory, scratch.baseDirectory),
                               scratch.baseDirectory, alive)
    {
      if isDisposed {
        return disk;
      }
      isDisposed := true;
      after := CleanUpSelf(disk, buildDirectory, scratch.processDirectory, scratch.baseDirectory);
      after := CleanUpOldTempDirectories(after, scratch.baseDirectory, alive);
    }
  }

  /**
   * Remove undoes a successful Add of the same file name: it looks up the key Add
   * queued under, and dropping that key restores the queue; adding the file again
   * before removing it fails with a duplicate key.
   */
  lemma RemoveUndoesAdd(files: map<string, QueuedContentFile>, disk: Disk, fullPath: string -> Path,
                        contentDirectory: Option<string>, stripFileExtensions: bool, outputDirectory: Path,
                        filename: string, importerType: Option<TypeId>, processorType: Option<TypeId>)
    requires IsNormaliser(fullPath)
    requires Enqueue(files, NewEntry(disk, fullPath, contentDirectory, stripFileExtensions, outputDirectory,
                                     filename, importerType, processorType)).Success?
    ensures var entry := NewEntry(disk, fullPath, contentDirectory, stripFileExtensions, outputDirectory,
                                  filename, importerType, processorType);
            var q := entry.value;
            && Text(fullPath(filename)) == q.filename
            && files[q.filename := q] - {Text(fullPath(filename))} == files
            && Enqueue(files[q.filename := q], entry) == Failure(DuplicateKey(q.filename))
  {
    var entry := NewEntry(disk, fullPath, contentDirectory, stripFileExtensions, outputDirectory,
                          filename, importerType, processorType);
    var q := entry.value;
    assert q.filename !in files;
    assert files[q.filename := q] - {q.filename} == files;
  }

  /** Clear raises exactly as many ItemRemoved events as there were queued files. */
  lemma OneRemovalPerEntry(files: map<string, QueuedContentFile>, events: seq<Notification>)
    requires RemovalsOf(files, events)
    ensures |events| == |files|
  {
    DistinctListing(Subjects(events), files.Keys);
  }

  /** One more removal event extends the removals of the entries already removed. */
  lemma RemovalsGrow(files: map<string, QueuedContentFile>, pending: set<string>, events: seq<Notification>, f: string)
    requires RemovalsOf(files - pending, events)
    requires f in pending && f in files && files[f].filename == f
    ensures RemovalsOf(files - (pending - {f}), events + [ItemRemoved(files[f])])
  {
    var grown := events + [ItemRemoved(files[f])];
    assert Subjects(grown) == Subjects(events) + [f];
  }
}
