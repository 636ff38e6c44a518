# XnaContent content engine, modelled in Dafny

XnaContent builds XNA content (textures, models, effects, sounds) at run time. It
queues source files in a `ContentEngine`, hands them to MSBuild with the XNA content
pipeline, and cleans up its scratch directories. This project models the engine's
own logic, which lives in `ContentEngine.cs`:

- **Type-mapping resolution.** An ordered first-match scan picks the importer and
  processor for a file name. It tries the caller's mappings first, then, when enabled,
  the built-in table of XNA extensions. The table is kept as written, including its
  `.fbw` entry.
- **The content queue.** A dictionary from full path to `QueuedContentFile`, with
  `Add`, typed `Add`, `Remove` and `Clear`. A ghost trace records the `ItemAdded`,
  `ItemRemoved` and build notifications in the order they are raised.
- **Content names.** A file's name is computed in one of two ways:
  - relative to an override directory, which is stripped as a plain string prefix;
  - relative to the nearest directory above the file that holds a `.contentproj`
    file, found by walking upward.

  Either way the optional stripping of the extension comes after. The string
  arithmetic of the source is kept (`Substring(root.Length + 1)`).
- **The scratch-directory lifecycle.**
  - A per-process counter names each engine's build directory. It is an `Int32`
    that wraps around.
  - Disposal happens once and cleans up the engine's own directories in order.
  - A sweep removes the directories of processes that no longer exist.
- **Build's outcome.** Build emits one project item per queued file and raises
  `BuildStarted`. It then raises `BuildFinished` or `BuildErrored`, and returns true
  exactly when the submission succeeds. Any exception becomes a `BuildErrored` and a
  false return.

Modules:

- `Wrappers`: Option, Result and Outcome.
- `Int32Text`: `Int32` wrap-around, `ToString` and `TryParse`.
- `Paths`: full paths as component sequences, their text, and the `System.IO.Path`
  string functions.
- `FileSystem`: the disk as a value, with the `Directory` calls as functions.
- `TypeMappings`: the mapping datatype, the default table and resolution.
- `ContentFiles`: `QueuedContentFile`, the upward search and content names.
- `Counting`: the cardinality of repetition-free listings.
- `BuildItems`: the project items Build emits.
- `Scratch`: the build-directory counter, self clean-up and the stale-process sweep.
- `Engine`: the `ContentEngine` class.

These are inputs of the model rather than code in it:

- the file system (`Disk`)
- `Path.GetFullPath`: a normalising function `fullPath`
- the regular-expression engine for caller patterns: `regexIsMatch(pattern, name)`
- `Process.GetProcessById`: `alive(pid)`
- the MSBuild run: `EngineRun`, which either throws at a given step or completes
  with a result code

## Model

| member | source | states |
|---|---|---|
| `TypeMappings.FirstMatch` | src/EdCanHack.XnaContent/ContentEngine.cs:180 | `FirstOrDefault` over a mapping list: the result is the lowest index whose matcher accepts the name, and None means no entry matches |
| `TypeMappings.FirstMatchFrom` | src/EdCanHack.XnaContent/ContentEngine.cs:180 | The scan from a given index: it returns the first matching position at or after that index, and None only when no later entry matches |
| `TypeMappings.Resolve` | src/EdCanHack.XnaContent/ContentEngine.cs:177-186 | The first matching caller mapping wins. The default table is consulted only when no caller mapping matches and defaults are enabled, and then its first match wins. Otherwise there is no mapping |
| `TypeMappings.DefaultTableShape` | src/EdCanHack.XnaContent/ContentEngine.cs:62-78 | The built-in table has nine entries, each an extension test with an importer and a processor |
| `TypeMappings.HasExtensionIsRegexSearch` | src/EdCanHack.XnaContent/ContentEngine.cs:64-77 | A default entry's test for one extension holds exactly when the regular expression `.*\.ext$` finds a match: the dotted extension at the end of the name, or just before a final newline |
| `TypeMappings.ExtensionsMatcherIsRegexSearch` | src/EdCanHack.XnaContent/ContentEngine.cs:71 | An entry with several alternatives matches exactly when one of them ends the name in that sense |
| `TypeMappings.ImageResolvesToTexturePipeline` | src/EdCanHack.XnaContent/ContentEngine.cs:62-78 | With defaults on and no caller mapping, a `.png` file resolves to TextureImporter and TextureProcessor |
| `TypeMappings.EffectResolvesToPassThrough` | src/EdCanHack.XnaContent/ContentEngine.cs:67 | With defaults on and no caller mapping, a `.fx` file resolves to EffectImporter and PassThroughProcessor |
| `TypeMappings.FbxIsNotMappedByDefault` | src/EdCanHack.XnaContent/ContentEngine.cs:64 | The first default entry tests for `.fbw`, so `ship.fbw` gets the FBX importer and `ship.fbx` resolves to nothing |
| `ContentFiles.SearchUpward` | src/EdCanHack.XnaContent/ContentEngine.cs:394-401 | The walk from a directory upward yields the first directory, the start included, that holds a project file; every directory passed on the way holds none; None means no directory on the way holds one |
| `ContentFiles.NearestProjectDirectory` | src/EdCanHack.XnaContent/ContentEngine.cs:390-405 | The content root of a file is its nearest strict ancestor holding a project file, and every directory between the two holds none; None means no ancestor holds one |
| `ContentFiles.FindNearestContentProjectDirectory` | src/EdCanHack.XnaContent/ContentEngine.cs:390-405 | The loop, which applies GetFullPath to each parent, finds exactly that nearest ancestor. Passing the root yields the ArgumentNullException case (None) |
| `ContentFiles.NewEntry` | src/EdCanHack.XnaContent/ContentEngine.cs:194-221 | A path that GetFullPath maps to no existing file fails with FileNotFoundException for that full path; an existing file never fails that way. A queued entry exists only for an existing file. Its file name is the file's full path, and it carries the importer and processor it was given |
| `ContentFiles.BaseName` | src/EdCanHack.XnaContent/ContentEngine.cs:200-216 | The base name is the full path text with the root's length plus one characters removed from its front, the root being the override string or the text of the nearest project directory. With an override it fails exactly when the path does not start with the override, and otherwise exactly when the path is not longer than the override. Without one it fails with the null-argument case exactly when no ancestor holds a project file. No other failure arises apart from an out-of-range Substring |
| `ContentFiles.ContentName` | src/EdCanHack.XnaContent/ContentEngine.cs:218-219 | Without stripping the name is the base name. Stripping fails exactly on an empty base name, where GetDirectoryName throws, and never lengthens the name |
| `ContentFiles.StartsWith` | src/EdCanHack.XnaContent/ContentEngine.cs:203 | The override test holds exactly when the path is the override followed by some rest |
| `ContentFiles.Substring` | src/EdCanHack.XnaContent/ContentEngine.cs:210 | `Substring(start)` succeeds exactly when start is at most the length, and the path is then the first `start` characters followed by the result; otherwise it throws ArgumentOutOfRange |
| `ContentFiles.OverrideWithTrailingSeparator` | src/EdCanHack.XnaContent/ContentEngine.cs:210 | An override ending in a separator drops one character too many: `/Content/a.png` under `/Content/` gets the base name `.png`, and with stripping the content name is empty |
| `ContentFiles.ContentNameBelowProject` | src/EdCanHack.XnaContent/ContentEngine.cs:214-219 | Below a non-root project directory, the name is the path relative to it. Stripping removes only the last extension of the last component and keeps the directory part |
| `ContentFiles.ContentNameBelowRootProject` | src/EdCanHack.XnaContent/ContentEngine.cs:215 | A project file in the root directory makes the name lose the first character of the relative path |
| `ContentFiles.ContentNameBelowOverride` | src/EdCanHack.XnaContent/ContentEngine.cs:201-211 | With an override directory above the file, the name is the path relative to that directory |
| `ContentFiles.OverrideIsPlainPrefix` | src/EdCanHack.XnaContent/ContentEngine.cs:203-210 | The override test is a string prefix. `/ContentX/a.png` under the override `/Content` gets the name `/a.png`; a path outside the prefix fails, and the error reports the output directory |
| `Paths.DirectoryName` | src/EdCanHack.XnaContent/ContentEngine.cs:218 | Path.GetDirectoryName yields a prefix of its argument, and the empty string exactly when the argument has no separator |
| `Paths.FileName` | src/EdCanHack.XnaContent/ContentEngine.cs:271 | Path.GetFileName yields a suffix of its argument without a separator, and the whole argument when it has none |
| `Paths.Stem` | src/EdCanHack.XnaContent/ContentEngine.cs:219 | The cut at the last dot that GetFileNameWithoutExtension applies to the file name: the whole name when it has no dot, and otherwise the prefix before the last dot, the part after which holds no dot |
| `Paths.FileNameWithoutExtension` | src/EdCanHack.XnaContent/ContentEngine.cs:219 | Path.GetFileNameWithoutExtension yields GetFileName's result cut before its last dot when it has one, with no separator, and the whole argument when it has neither separator nor dot |
| `Paths.Combine` | src/EdCanHack.XnaContent/ContentEngine.cs:218 | Path.Combine keeps both parts in order, inserting one separator when the first part is non-empty and does not end with one |
| `Paths.StripExtension` | src/EdCanHack.XnaContent/ContentEngine.cs:218-219 | Combining the directory name and the name without extension fails only on the empty string and never lengthens the name |
| `Paths.SplitAtLastSeparator` | src/EdCanHack.XnaContent/ContentEngine.cs:218-219 | For `dir/name`, GetDirectoryName yields `dir` and GetFileName yields `name` |
| `Paths.StripExtensionOfNested` | src/EdCanHack.XnaContent/ContentEngine.cs:218-219 | Combining GetDirectoryName and GetFileNameWithoutExtension of `dir/name` keeps `dir` and removes only the last extension of `name` |
| `Paths.StripExtensionOfName` | src/EdCanHack.XnaContent/ContentEngine.cs:218-219 | A name without directory part loses only its last extension |
| `Paths.StemSplitsAtLastDot` | src/EdCanHack.XnaContent/ContentEngine.cs:219 | GetFileNameWithoutExtension cuts the name at its last dot: the part removed is empty exactly when the name has no dot, and otherwise is a dot followed by no further dot |
| `Paths.FileNameOfText` | src/EdCanHack.XnaContent/ContentEngine.cs:271 | Path.GetFileName of a full path is its last component |
| `Paths.LastIndexOf` | src/EdCanHack.XnaContent/ContentEngine.cs:218-219 | The position of the last occurrence of a character, or -1 when it does not occur |
| `BuildItems.ItemOf` | src/EdCanHack.XnaContent/ContentEngine.cs:267-275 | Each item is a `Compile` item including the queued file, whose metadata keys are Link and Name, plus Importer and Processor when the entry has those types |
| `BuildItems.EmitItems` | src/EdCanHack.XnaContent/ContentEngine.cs:265-276 | The item loop yields exactly one item per queued entry. Each item includes the entry's file and carries its metadata |
| `BuildItems.OneItemPerEntry` | src/EdCanHack.XnaContent/ContentEngine.cs:265-276 | A complete, repetition-free item list has as many items as the queue has entries |
| `BuildItems.ItemMetadata` | src/EdCanHack.XnaContent/ContentEngine.cs:271-275 | Link is the file's last path component and Name is the content name. Importer and Processor are present exactly when the entry has those types |
| `Int32Text.Wrap32` | src/EdCanHack.XnaContent/ContentEngine.cs:384 | Unchecked `Int32` arithmetic: the result is an `Int32` congruent to the exact value modulo 2^32 |
| `Int32Text.Wrap32Successor` | src/EdCanHack.XnaContent/ContentEngine.cs:384 | Incrementing the wrapped counter equals wrapping the incremented count |
| `Int32Text.Wrap32Distinct` | src/EdCanHack.XnaContent/ContentEngine.cs:384 | Fewer than 2^32 increments never repeat a counter value |
| `Int32Text.Int32ToString` | src/EdCanHack.XnaContent/ContentEngine.cs:46 | `Int32.ToString` yields a non-empty string of digits with an optional leading minus sign |
| `Int32Text.ParseInt32` | src/EdCanHack.XnaContent/ContentEngine.cs:416 | `Int32.TryParse` (integer style, invariant signs) accepts only values in the `Int32` range |
| `Int32Text.NonNumericRejected` | src/EdCanHack.XnaContent/ContentEngine.cs:416 | A name holding a character that is not white space, a sign, a digit or NUL does not parse, wherever that character stands |
| `Int32Text.ParseInt32RoundTrip` | src/EdCanHack.XnaContent/ContentEngine.cs:46 | `TryParse` reads back the process id that `ToString` wrote as a directory name |
| `Int32Text.Int32ToStringInjective` | src/EdCanHack.XnaContent/ContentEngine.cs:384 | Different counter values give different directory names |
| `Int32Text.DecimalRoundTrip` | src/EdCanHack.XnaContent/ContentEngine.cs:416 | The decimal digits of a natural number read back as that number |
| `FileSystem.CreateDirectory` | src/EdCanHack.XnaContent/ContentEngine.cs:258 | After Directory.CreateDirectory the directory exists. Every ancestor exists afterwards too. Only the directory and its missing ancestors are added, and files and locks are unchanged |
| `FileSystem.Prefixes` | src/EdCanHack.XnaContent/ContentEngine.cs:258 | The directories CreateDirectory may add are exactly the path and its ancestors |
| `FileSystem.ProjectDirs` | src/EdCanHack.XnaContent/ContentEngine.cs:397 | A directory passes `GetFiles(directory, "*.contentproj")` exactly when it directly holds a file whose name ends in `.contentproj` |
| `FileSystem.Subdirectories` | src/EdCanHack.XnaContent/ContentEngine.cs:411 | Directory.GetDirectories lists exactly the directories one level below |
| `FileSystem.DeleteTree` | src/EdCanHack.XnaContent/ContentEngine.cs:361 | A recursive Directory.Delete succeeds exactly when the directory exists and nothing in its tree is locked, and then removes exactly the directories and files of the tree |
| `FileSystem.DeleteEmpty` | src/EdCanHack.XnaContent/ContentEngine.cs:365-369 | A non-recursive Directory.Delete succeeds exactly when the directory exists, is not locked and holds nothing, and then removes only that directory |
| `FileSystem.RemoveTreesTwice` | src/EdCanHack.XnaContent/ContentEngine.cs:411-438 | Deleting directory trees one after another equals deleting them all at once |
| `FileSystem.SiblingTreesDisjoint` | src/EdCanHack.XnaContent/ContentEngine.cs:411 | Two different subdirectories of one directory have no descendant in common |
| `Scratch.BuildDirectoryFor` | src/EdCanHack.XnaContent/ContentEngine.cs:384 | A build directory is a direct subdirectory of the process directory |
| `Scratch.ScratchSpace.constructor` | src/EdCanHack.XnaContent/ContentEngine.cs:44-49 | The process directory is the base directory joined with the process id, and the counter starts at 0 |
| `Scratch.BuildDirectoriesDistinct` | src/EdCanHack.XnaContent/ContentEngine.cs:382-385 | Two counter values fewer than 2^32 increments apart name different build directories |
| `Scratch.ScratchSpace.ComputeBuildDirectory` | src/EdCanHack.XnaContent/ContentEngine.cs:382-385 | The build directory is named by the counter's old value, and the counter is incremented with wrap-around. Until it wraps, no directory is handed out twice |
| `Scratch.SelfCleanup` | src/EdCanHack.XnaContent/ContentEngine.cs:357-379 | Self clean-up only removes, never touches the locks, changes nothing when the build tree cannot be deleted, and otherwise removes exactly the build tree's files |
| `Scratch.CleanUpSelf` | src/EdCanHack.XnaContent/ContentEngine.cs:357-379 | The steps delete the build tree, then the process directory when it has no subdirectories, then the base directory when it has none. The first failure stops the chain. Nothing is ever created, and an undeletable build tree leaves the disk unchanged |
| `Scratch.SelfCleanupEffects` | src/EdCanHack.XnaContent/ContentEngine.cs:357-379 | Self clean-up removes only the build tree, the process directory and the base directory, and no file outside the build tree. The process directory goes only after the build tree, and the base directory only after the process directory, each only when nothing is left inside it. A deletable build tree leaves no directory or file behind |
| `Scratch.SelfCleanupPrunesProcessDirectory` | src/EdCanHack.XnaContent/ContentEngine.cs:361-365 | When the build tree can be deleted and the process directory, unlocked, holds nothing outside it, self clean-up deletes the process directory |
| `Scratch.SelfCleanupPrunesBaseDirectory` | src/EdCanHack.XnaContent/ContentEngine.cs:361-369 | When, besides, the base directory, unlocked, holds nothing but the process directory and the build tree's files, self clean-up deletes the base directory too |
| `Scratch.StaleByProcessId` | src/EdCanHack.XnaContent/ContentEngine.cs:414-427 | A directory named with a process id is stale exactly when that process is not alive |
| `Scratch.Swept` | src/EdCanHack.XnaContent/ContentEngine.cs:407-439 | The sweep only removes, never touches the locks, and does nothing without a base directory |
| `Scratch.CleanUpOldTempDirectories` | src/EdCanHack.XnaContent/ContentEngine.cs:407-439 | The loop, in any order, removes exactly the trees of those subdirectories that are named by a dead process's id and can be deleted |
| `Scratch.SweepEffects` | src/EdCanHack.XnaContent/ContentEngine.cs:407-439 | Without a base directory the sweep does nothing. A subdirectory with a non-numeric name or a live pid is never touched. Every deletable stale tree is gone, directories and files, and no directory or file outside stale trees is removed |
| `Scratch.CurrentProcessSurvivesSweep` | src/EdCanHack.XnaContent/ContentEngine.cs:46 | A sweep never removes a directory or file below the directory of a running process |
| `Scratch.SweptIdempotent` | src/EdCanHack.XnaContent/ContentEngine.cs:306 | A second sweep removes nothing |
| `Scratch.DisposalSparesLiveProcesses` | src/EdCanHack.XnaContent/ContentEngine.cs:165-172 | For an engine whose build directory came from the counter, disposal (self clean-up, then the sweep) removes no directory and no file below another live process's directory. A build directory the caller supplied is deleted wherever it lies |
| `Engine.ContentEngine.constructor` | src/EdCanHack.XnaContent/ContentEngine.cs:145-158 | Every option, including the GetFullPath and regular-expression functions and the user assemblies, is taken as given, and the queue is empty. A build directory that is not given comes from the per-process counter |
| `Engine.Enqueue` | src/EdCanHack.XnaContent/ContentEngine.cs:221-223 | Dictionary.Add succeeds exactly when the entry was built and its full path is not yet a key. A failed entry keeps its error, and an existing key gives the duplicate-key error |
| `Engine.ContentEngine.OutputDirectory` | src/EdCanHack.XnaContent/ContentEngine.cs:92 | The output directory is `bin/Content` below the build directory |
| `Engine.ContentEngine.AddWithTypes` | src/EdCanHack.XnaContent/ContentEngine.cs:194-226 | A missing file, a file outside the override root, a failed search or an already queued path fails, with the queue and the trace unchanged. Success inserts exactly one entry, keyed by the full path, and then raises ItemAdded once |
| `Engine.ContentEngine.Add` | src/EdCanHack.XnaContent/ContentEngine.cs:177-193 | Without a mapping, Add throws if unmapped files are refused and is otherwise a no-op. With a mapping it behaves as the typed Add with that mapping's types |
| `Engine.ContentEngine.Remove` | src/EdCanHack.XnaContent/ContentEngine.cs:228-239 | A queued full path raises ItemRemoved with its entry once and drops only that key. An absent path changes nothing. The result is always false |
| `Engine.ContentEngine.Clear` | src/EdCanHack.XnaContent/ContentEngine.cs:241-246 | The queue ends empty, and ItemRemoved is raised exactly once for each entry that was queued, with that entry |
| `Engine.ContentEngine.PreparedDisk` | src/EdCanHack.XnaContent/ContentEngine.cs:258-286 | Before submitting, Build ensures the build directory exists and that no `Content.contentproj` file is left in it. It adds only the build directory and its ancestors, removes no other file and changes no lock |
| `Engine.ContentEngine.PreparedDiskDropsProjectDirectory` | src/EdCanHack.XnaContent/ContentEngine.cs:286 | When `Content.contentproj` was the build directory's only project file, the directory no longer counts as a project directory after it is deleted |
| `Engine.ContentEngine.Build` | src/EdCanHack.XnaContent/ContentEngine.cs:253-315 | Build returns true exactly when the submission completes with Success. Once the project is built, BuildStarted carries one item per queued entry. Success raises BuildFinished with the build and output directories, and Failure raises BuildErrored with the logged errors. Every exception raises BuildErrored with the exception and no messages. A sweep runs only after a completed submission, and the queue is unchanged |
| `Engine.ContentEngine.Dispose` | src/EdCanHack.XnaContent/ContentEngine.cs:160-172 | The first call marks the engine disposed, cleans up its own directories and then sweeps stale ones. Every later call changes nothing |
| `Engine.RemoveUndoesAdd` | src/EdCanHack.XnaContent/ContentEngine.cs:196-235 | Remove with the same name looks up the key that Add queued under, and dropping it restores the queue. A second Add of the same file fails with a duplicate key |
| `Engine.OneRemovalPerEntry` | src/EdCanHack.XnaContent/ContentEngine.cs:241-246 | Clear raises as many ItemRemoved events as there were queued entries |

## Left out

- The MSBuild side of Build is not modelled: `ConstructStandardProject`, the pipeline
  references, `BeginBuild`, `PendBuildRequest`, `ExecuteAsync` and the wait. It is an
  external engine, so the run is an input that says where it throws or how it completes.
- Engine.ContentEngine.Build: the `ExecuteAsync` completion callback is treated as
  synchronous. The model raises its BuildFinished or BuildErrored before `WaitOne`
  returns, before the sweep and before Build returns. In the source MSBuild sets the
  wait handle and then hands the callback to a thread-pool thread, so it is not
  ordered against the rest of Build.
- Engine.ContentEngine.Build: the run's FailsCreatingDirectory outcome is not tied to
  the build directory being missing. The source calls `Directory.CreateDirectory`
  only when it is, so that outcome stands for a failure of either call of line 258.
- Engine.ContentEngine.Build: the model's sweep cannot throw. In the source an
  exception from the sweep (from `Directory.GetDirectories`, say) would raise a second
  notification, BuildErrored with the exception, beside the callback's, and Build
  would return false.
- Engine.ContentEngine.Dispose: the model's sweep cannot throw. In the source an
  exception from the sweep would escape Dispose after the engine is marked disposed.
- BuildItems.ItemOf: the item's include is the file's full path taken verbatim. MSBuild
  evaluates an include: it splits it at `;`, unescapes `%XX` and expands `$(...)` and
  `@(...)`. One item per entry, including that file, holds only for paths without
  these characters.
- BuildItems.EmitItems: one item per queued entry holds only for full paths without
  `;`, `%`, `$(` or `@(`, as for BuildItems.ItemOf.
- `File.Delete` of a stale project file is taken to succeed, and `Directory.Exists` and
  `Directory.CreateDirectory` are taken not to throw once the run has passed the
  directory step.
- `Assembly.LoadFile`, reflection, and the static initialisers are not modelled; they
  read the temp path, the entry assembly's name and the process id. The base directory
  and the process id are parameters of the scratch space.
- The real file system, the operating system's process table and the .NET regular
  expression engine are not modelled. The disk is a value, `alive(pid)` stands for
  `Process.GetProcessById`, and caller patterns go through `regexIsMatch`. The default
  table is modelled as literal extension tests, including .NET's `$` matching before a
  final newline.
- A recursive delete either removes the whole tree or fails without removing
  anything; partial deletion before a failure is not modelled. Directories fail to
  delete when something in their tree is in use or denied.
- Each C# event is modelled as a trace entry raised whenever the source would call
  its handler. A missing handler, a throwing handler, and the `Project` and
  `BuildParameters` arguments of BuildStarted are not modelled.
- Thread safety of the shared counter is not modelled. Its unsynchronised increment
  is modelled as a sequential one.
- Path text uses one separator. Drive letters, `.` and `..`, relative inputs and the
  exceptions GetFullPath throws for malformed strings are left to the `fullPath`
  function, which is total.
- Culture: the source uses the current culture where the model uses the invariant
  one. The model compares ordinally in StartsWith (line 203), reads invariant signs
  and digits in `TryParse` (line 416) and writes `Int32.ToString` (lines 46 and 384)
  with the invariant minus sign.
- FileSystem.ProjectDirs: the `*.contentproj` pattern is matched case-sensitively and
  without Windows' short-name matching.
- Engine.ContentEngine.constructor: a caller-supplied build directory is taken as a
  full path, not as a string passed through unchanged.
- Engine.ContentEngine.Build: the project items are stated as a set of includes with
  their metadata; the dictionary's enumeration order is left open.
- Engine.ContentEngine.Clear: the order of the ItemRemoved events is left open, as the
  snapshot's order is the dictionary's.
- The `Filenames` and `Files` properties (line 174-175) only expose the queue's keys
  and values and are read directly from the `files` field.
- `ContentEngineException` message formatting is not modelled; each throw is an
  `Error` variant. `ErrorLogger`, the example program and the assembly attributes are
  outside the engine.
