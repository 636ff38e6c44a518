/**
 * The scratch-directory lifecycle: one directory per process under a shared base
 * directory, one build directory per engine under it named by a per-process counter,
 * the engine's own clean-up on disposal, and the sweep that removes the directories of
 * processes that no longer exist.
 */
module Scratch {
  import opened Wrappers
  import opened Paths
  import opened FileSystem
  import opened Int32Text

  /** Path.Combine(ProcessDirectory, salt.ToString()). */
  function BuildDirectoryFor(processDirectory: Path, salt: int): (r: Path)
    requires IsInt32(salt)
    ensures r != [] && Parent(r) == processDirectory
  {
    processDirectory + [Int32ToString(salt)]
  }

  /** Counter values fewer than 2^32 increments apart name different build directories. */
  lemma BuildDirectoriesDistinct(processDirectory: Path, i: nat, j: nat)
    requires i < j < Modulus
    ensures BuildDirectoryFor(processDirectory, Wrap32(i)) != BuildDirectoryFor(processDirectory, Wrap32(j))
  {
    Wrap32Distinct(i, j);
    var a, b := BuildDirectoryFor(processDirectory, Wrap32(i)), BuildDirectoryFor(processDirectory, Wrap32(j));
    if a == b {
      assert a[|processDirectory|] == b[|processDirectory|];
      Int32ToStringInjective(Wrap32(i), Wrap32(j));
    }
  }

  /**
   * The process-wide statics: BaseDirectory (the temp path joined with the entry
   * assembly's name, taken as given), ProcessDirectory (BaseDirectory joined with the
   * process id) and the counter `_salt`. `issued` records every directory handed out.
   */
  class ScratchSpace {
    const baseDirectory: Path
    const processDirectory: Path
    var salt: int
    ghost var issued: seq<Path>

    ghost predicate Valid()
      reads this
    {
      && IsInt32(salt)
      && salt == Wrap32(|issued|)
      && forall i :: 0 <= i < |issued| ==> issued[i] == BuildDirectoryFor(processDirectory, Wrap32(i))
    }

    constructor (baseDirectory: Path, processId: int)
      requires IsInt32(processId)
      ensures Valid()
      ensures this.baseDirectory == baseDirectory
      ensures processDirectory == baseDirectory + [Int32ToString(processId)]
      ensures issued == []
    {
      this.baseDirectory := baseDirectory;
      processDirectory := baseDirectory + [Int32ToString(processId)];
      salt := 0;
      issued := [];
      Wrap32OfCount(0);
    }

    /**
     * ComputeBuildDirectory: the directory named after the counter, which is then
     * incremented with wrap-around. Until the counter has gone all the way round, no
     * directory is handed out twice.
     */
    method ComputeBuildDirectory() returns (dir: Path)
      requires Valid()
      modifies this
      ensures Valid()
      ensures dir == BuildDirectoryFor(processDirectory, old(salt))
      ensures issued == old(issued) + [dir]
      ensures |old(issued)| < Modulus ==> dir !in old(issued)
    {
      dir := BuildDirectoryFor(processDirectory, salt);
      if |issued| < Modulus {
        forall i | 0 <= i < |issued| ensures issued[i] != dir {
          BuildDirectoriesDistinct(processDirectory, i, |issued|);
        }
      }
      Wrap32Successor(|issued|);
      salt := Wrap32(salt + 1);
      issued := issued + [dir];
    }
  }

  /**
   * What CleanUpSelf leaves: delete the build directory recursively; then, if the
   * process directory has no subdirectories, delete it; then, likewise, the base
   * directory. The first call that throws ends the chain and is ignored.
   */
  function SelfCleanup(disk: Disk, buildDirectory: Path, processDirectory: Path, baseDirectory: Path): (r: Disk)
    ensures r.dirs <= disk.dirs && r.files <= disk.files && r.locked == disk.locked
    ensures !Deletable(disk, buildDirectory) ==> r == disk
    ensures Deletable(disk, buildDirectory) ==> forall f :: f in r.files <==> f in disk.files && !Under(f, buildDirectory)
  {
    match DeleteTree(disk, buildDirectory)
    case None => disk
    case Some(d1) =>
      if processDirectory !in d1.dirs || Subdirectories(d1, processDirectory) != {} then d1
      else match DeleteEmpty(d1, processDirectory)
        case None => d1
        case Some(d2) =>
          if baseDirectory !in d2.dirs || Subdirectories(d2, baseDirectory) != {} then d2
          else match DeleteEmpty(d2, baseDirectory)
            case None => d2
            case Some(d3) => d3
  }

  /** CleanUpSelf, step by step; a missing directory (GetDirectories throws) ends the chain too. */
  method CleanUpSelf(disk: Disk, buildDirectory: Path, processDirectory: Path, baseDirectory: Path) returns (d: Disk)
    ensures d == SelfCleanup(disk, buildDirectory, processDirectory, baseDirectory)
    ensures d.dirs <= disk.dirs && d.files <= disk.files
    ensures !Deletable(disk, buildDirectory) ==> d == disk
  {
    d := disk;
    var deleted := DeleteTree(d, buildDirectory);
    if deleted.None? {
      return;
    }
    d := deleted.value;
    if processDirectory !in d.dirs || Subdirectories(d, processDirectory) != {} {
      return;
    }
    deleted := DeleteEmpty(d, processDirectory);
    if deleted.None? {
      return;
    }
    d := deleted.value;
    if baseDirectory !in d.dirs || Subdirectories(d, baseDirectory) != {} {
      return;
    }
    deleted := DeleteEmpty(d, baseDirectory);
    if deleted.Some? {
      d := deleted.value;
    }
  }

  /**
   * What self clean-up can and cannot remove: the build tree, the process directory
   * and the base directory only; the process directory only once the build tree is
   * gone and nothing is left inside it; the base directory only after the process
   * directory, and only when nothing is left inside it.
   */
  lemma SelfCleanupEffects(disk: Disk, buildDirectory: Path, processDirectory: Path, baseDirectory: Path)
    ensures var d := SelfCleanup(disk, buildDirectory, processDirectory, baseDirectory);
            && (Deletable(disk, buildDirectory) ==> forall x :: x in d.dirs ==> !Under(x, buildDirectory))
            && (forall x :: x in disk.dirs && x !in d.dirs ==> Under(x, buildDirectory) || x == processDirectory || x == baseDirectory)
            && (processDirectory in disk.dirs && processDirectory !in d.dirs && !Under(processDirectory, buildDirectory) ==>
                  Deletable(disk, buildDirectory) && forall x :: x in d.dirs ==> !Under(x, processDirectory))
            && (baseDirectory in disk.dirs && baseDirectory !in d.dirs && !Under(baseDirectory, buildDirectory) ==>
                  processDirectory !in d.dirs && forall x :: x in d.dirs ==> !Under(x, baseDirectory))
            && (Deletable(disk, buildDirectory) ==> forall f :: f in d.files ==> !Under(f, buildDirectory))
            && (forall f :: f in disk.files && f !in d.files ==> Under(f, buildDirectory))
  {
    var d := SelfCleanup(disk, buildDirectory, processDirectory, baseDirectory);
    if Deletable(disk, buildDirectory) {
      var d1 := RemoveTrees(disk, {buildDirectory});
      assert forall x :: x in d1.dirs ==> !Under(x, buildDirectory) by {
        forall x | x in d1.dirs ensures !Under(x, buildDirectory) {
          assert !UnderAny(x, {buildDirectory});
        }
      }
      assert forall x :: x in disk.dirs && x !in d1.dirs ==> Under(x, buildDirectory) by {
        forall x | x in disk.dirs && x !in d1.dirs ensures Under(x, buildDirectory) {
          assert UnderAny(x, {buildDirectory});
        }
      }
      assert forall f :: f in d1.files <==> f in disk.files && !Under(f, buildDirectory) by {
        forall f ensures f in d1.files <==> f in disk.files && !Under(f, buildDirectory) {
          assert UnderAny(f, {buildDirectory}) <==> Under(f, buildDirectory);
        }
      }
    }
  }

  /**
   * The other half: when the build tree can be deleted and the process directory
   * exists, is not locked and holds nothing outside the build tree, self clean-up
   * deletes the process directory.
   */
  lemma SelfCleanupPrunesProcessDirectory(disk: Disk, buildDirectory: Path, processDirectory: Path, baseDirectory: Path)
    requires Deletable(disk, buildDirectory)
    requires buildDirectory != [] && Parent(buildDirectory) == processDirectory
    requires processDirectory in disk.dirs && processDirectory !in disk.locked
    requires forall x :: x in disk.dirs && Under(x, processDirectory) ==> x == processDirectory || Under(x, buildDirectory)
    requires forall f :: f in disk.files && Under(f, processDirectory) ==> Under(f, buildDirectory)
    ensures processDirectory !in SelfCleanup(disk, buildDirectory, processDirectory, baseDirectory).dirs
  {
    var d1 := DeleteTree(disk, buildDirectory).value;
    assert processDirectory in d1.dirs;
    assert Subdirectories(d1, processDirectory) == {};
    assert DeleteEmpty(d1, processDirectory).Some?;
  }

  /**
   * Likewise for the base directory: when, besides, the base directory exists, is not
   * locked and holds nothing but the process directory and files of the build tree,
   * self clean-up deletes it too.
   */
  lemma SelfCleanupPrunesBaseDirectory(disk: Disk, buildDirectory: Path, processDirectory: Path, baseDirectory: Path)
    requires Deletable(disk, buildDirectory)
    requires buildDirectory != [] && Parent(buildDirectory) == processDirectory
    requires processDirectory != [] && Parent(processDirectory) == baseDirectory
    requires processDirectory in disk.dirs && processDirectory !in disk.locked
    requires baseDirectory in disk.dirs && baseDirectory !in disk.locked
    requires forall x :: x in disk.dirs && Under(x, processDirectory) ==> x == processDirectory || Under(x, buildDirectory)
    requires forall x :: x in disk.dirs && Under(x, baseDirectory) ==> x == baseDirectory || Under(x, processDirectory)
    requires forall f :: f in disk.files && Under(f, baseDirectory) ==> Under(f, buildDirectory)
    ensures baseDirectory !in SelfCleanup(disk, buildDirectory, processDirectory, baseDirectory).dirs
  {
    var d1 := DeleteTree(disk, buildDirectory).value;
    assert processDirectory in d1.dirs;
    assert Subdirectories(d1, processDirectory) == {};
    var d2 := DeleteEmpty(d1, processDirectory).value;
    assert baseDirectory in d2.dirs;
    assert Subdirectories(d2, baseDirectory) == {};
    assert DeleteEmpty(d2, baseDirectory).Some?;
  }

  /** A subdirectory of the base directory named after a process that no longer exists. */
  predicate Stale(directory: Path, alive: int -> bool) {
    directory != [] &&
    match ParseInt32(directory[|directory| - 1])
    case None => false
    case Some(pid) => !alive(pid)
  }

  /**
   * A directory named Int32.ToString of a process id is stale exactly when that
   * process is not alive: TryParse reads the name back as the same id.
   */
  lemma StaleByProcessId(directory: Path, processId: int, alive: int -> bool)
    requires IsInt32(processId)
    requires directory != [] && directory[|directory| - 1] == Int32ToString(processId)
    ensures Stale(directory, alive) <==> !alive(processId)
  {
    ParseInt32RoundTrip(processId);
  }

  /** The stale directories among `candidates` whose recursive deletion succeeds. */
  function StaleAmong(disk: Disk, candidates: set<Path>, alive: int -> bool): set<Path> {
    set c | c in candidates && Stale(c, alive) && Deletable(disk, c)
  }

  /** What CleanUpOldTempDirectories leaves. */
  function Swept(disk: Disk, baseDirectory: Path, alive: int -> bool): (r: Disk)
    ensures r.dirs <= disk.dirs && r.files <= disk.files && r.locked == disk.locked
    ensures baseDirectory !in disk.dirs ==> r == disk
  {
    if baseDirectory !in disk.dirs then disk
    else RemoveTrees(disk, StaleAmong(disk, Subdirectories(disk, baseDirectory), alive))
  }

  /** The stale trees among the visited subdirectories do not contain another subdirectory. */
  lemma SiblingNotRemoved(disk: Disk, baseDirectory: Path, visited: set<Path>, directory: Path, alive: int -> bool)
    requires visited <= Subdirectories(disk, baseDirectory)
    requires directory in Subdirectories(disk, baseDirectory) && directory !in visited
    ensures !UnderAny(directory, StaleAmong(disk, visited, alive))
  {
    forall c | c in StaleAmong(disk, visited, alive) ensures !Under(directory, c) {
      if Under(directory, c) {
        SiblingTreesDisjoint(disk, baseDirectory, directory, c, directory);
      }
    }
  }

  /** Visiting one more subdirectory adds it to the stale trees exactly when it is stale and deletable. */
  lemma StaleAmongGrows(disk: Disk, visited: set<Path>, directory: Path, alive: int -> bool)
    ensures StaleAmong(disk, visited + {directory}, alive)
         == StaleAmong(disk, visited, alive) + (if Stale(directory, alive) && Deletable(disk, directory) then {directory} else {})
  {
  }

  /**
   * One step of the sweep: removing the trees of other subdirectories does not change
   * whether the next one can be deleted, and deleting it (or not) extends the removal.
   */
  lemma SweepStep(disk: Disk, baseDirectory: Path, visited: set<Path>, directory: Path, alive: int -> bool)
    requires visited <= Subdirectories(disk, baseDirectory)
    requires directory in Subdirectories(disk, baseDirectory) && directory !in visited
    ensures var d := RemoveTrees(disk, StaleAmong(disk, visited, alive));
            var next := RemoveTrees(disk, StaleAmong(disk, visited + {directory}, alive));
            && (Stale(directory, alive) && Deletable(d, directory) ==> next == RemoveTrees(d, {directory}))
            && (!(Stale(directory, alive) && Deletable(d, directory)) ==> next == d)
  {
    var removed := StaleAmong(disk, visited, alive);
    SiblingNotRemoved(disk, baseDirectory, visited, directory, alive);
    RemoveTreesKeepsDeletable(disk, removed, directory);
    StaleAmongGrows(disk, visited, directory, alive);
    RemoveTreesTwice(disk, removed, {directory});
  }

  /**
   * CleanUpOldTempDirectories: for every subdirectory of the base directory whose name
   * parses as a process id that `alive` rejects, try a recursive delete and ignore a
   * failure. The subdirectories are visited in no particular order.
   */
  method CleanUpOldTempDirectories(disk: Disk, baseDirectory: Path, alive: int -> bool) returns (d: Disk)
    ensures d == Swept(disk, baseDirectory, alive)
  {
    if baseDirectory !in disk.dirs {
      return disk;
    }
    var directories := Subdirectories(disk, baseDirectory);
    var pending := directories;
    ghost var visited: set<Path> := {};
    d := disk;
    assert StaleAmong(disk, visited, alive) == {};
    RemoveNoTrees(disk);
    while pending != {}
      invariant pending <= directories && visited == directories - pending
      invariant d == RemoveTrees(disk, StaleAmong(disk, visited, alive))
      decreases pending
    {
      var directory :| directory in pending;
      SweepStep(disk, baseDirectory, visited, directory, alive);
      var pid := ParseInt32(directory[|directory| - 1]);
      assert Stale(directory, alive) <==> pid.Some? && !alive(pid.value);
      if pid.Some? && !alive(pid.value) {
        var deleted := DeleteTree(d, directory);
        if deleted.Some? {
          d := deleted.value;
        }
      }
      pending := pending - {directory};
      visited := visited + {directory};
    }
  }

  /**
   * The sweep does nothing without a base directory; it never touches the tree of a
   * subdirectory whose name is not a process id or is the id of a live process; it
   * removes the whole tree of every stale subdirectory it can delete; and it removes
   * nothing outside the trees of stale subdirectories.
   */
  lemma SweepEffects(disk: Disk, baseDirectory: Path, alive: int -> bool)
    ensures baseDirectory !in disk.dirs ==> Swept(disk, baseDirectory, alive) == disk
    ensures forall c, x :: c in Subdirectories(disk, baseDirectory) && !Stale(c, alive) && x in disk.dirs && Under(x, c)
              ==> x in Swept(disk, baseDirectory, alive).dirs
    ensures forall c, x :: (&& baseDirectory in disk.dirs && c in Subdirectories(disk, baseDirectory)
                            && Stale(c, alive) && Deletable(disk, c) && x in Swept(disk, baseDirectory, alive).dirs)
              ==> !Under(x, c)
    ensures forall x :: x in disk.dirs && x !in Swept(disk, baseDirectory, alive).dirs ==>
              exists c :: c in Subdirectories(disk, baseDirectory) && Stale(c, alive) && Under(x, c)
    ensures forall c, f :: c in Subdirectories(disk, baseDirectory) && !Stale(c, alive) && f in disk.files && Under(f, c)
              ==> f in Swept(disk, baseDirectory, alive).files
    ensures forall c, f :: (&& baseDirectory in disk.dirs && c in Subdirectories(disk, baseDirectory)
                            && Stale(c, alive) && Deletable(disk, c) && f in Swept(disk, baseDirectory, alive).files)
              ==> !Under(f, c)
    ensures forall f :: f in disk.files && f !in Swept(disk, baseDirectory, alive).files ==>
              exists c :: c in Subdirectories(disk, baseDirectory) && Stale(c, alive) && Under(f, c)
  {
    var d := Swept(disk, baseDirectory, alive);
    var stale := StaleAmong(disk, Subdirectories(disk, baseDirectory), alive);
    forall c, x | c in Subdirectories(disk, baseDirectory) && !Stale(c, alive) && x in disk.dirs && Under(x, c)
      ensures x in d.dirs
    {
      forall s | s in stale ensures !Under(x, s) {
        if Under(x, s) {
          SiblingTreesDisjoint(disk, baseDirectory, c, s, x);
        }
      }
    }
    forall c, x | baseDirectory in disk.dirs && c in Subdirectories(disk, baseDirectory) && Stale(c, alive) && Deletable(disk, c) && x in d.dirs
      ensures !Under(x, c)
    {
      assert c in stale;
    }
    forall c, f | c in Subdirectories(disk, baseDirectory) && !Stale(c, alive) && f in disk.files && Under(f, c)
      ensures f in d.files
    {
      forall s | s in stale ensures !Under(f, s) {
        if Under(f, s) {
          SiblingTreesDisjoint(disk, baseDirectory, c, s, f);
        }
      }
    }
    forall c, f | baseDirectory in disk.dirs && c in Subdirectories(disk, baseDirectory) && Stale(c, alive) && Deletable(disk, c) && f in d.files
      ensures !Under(f, c)
    {
      assert c in stale;
    }
  }

  /**
   * While the current process runs, no sweep (its own or another process's) touches
   * its directory: the directory is named by Int32.ToString of the process id, which
   * Int32.TryParse reads back.
   */
  lemma CurrentProcessSurvivesSweep(disk: Disk, baseDirectory: Path, processId: int, alive: int -> bool)
    requires IsInt32(processId) && alive(processId)
    ensures var processDirectory := baseDirectory + [Int32ToString(processId)];
            && (forall x :: x in disk.dirs && Under(x, processDirectory) ==> x in Swept(disk, baseDirectory, alive).dirs)
            && (forall f :: f in disk.files && Under(f, processDirectory) ==> f in Swept(disk, baseDirectory, alive).files)
  {
    var processDirectory := baseDirectory + [Int32ToString(processId)];
    ParseInt32RoundTrip(processId);
    assert !Stale(processDirectory, alive);
    SweepEffects(disk, baseDirectory, alive);
    forall x, c | x in disk.dirs && Under(x, processDirectory) && c in Subdirectories(disk, baseDirectory) && Under(x, c)
      ensures c == processDirectory
    {
      assert c == x[..|c|] && processDirectory == x[..|processDirectory|];
    }
    forall f, c | f in disk.files && Under(f, processDirectory) && c in Subdirectories(disk, baseDirectory) && Under(f, c)
      ensures c == processDirectory
    {
      assert c == f[..|c|] && processDirectory == f[..|processDirectory|];
    }
  }

  /**
   * A second sweep removes nothing: what the first one left of the stale
   * subdirectories cannot be deleted.
   */
  lemma SweptIdempotent(disk: Disk, baseDirectory: Path, alive: int -> bool)
    ensures Swept(Swept(disk, baseDirectory, alive), baseDirectory, alive) == Swept(disk, baseDirectory, alive)
  {
    var d := Swept(disk, baseDirectory, alive);
    if baseDirectory in d.dirs {
      var again := StaleAmong(d, Subdirectories(d, baseDirectory), alive);
      forall c | c in again ensures false {
        assert c in StaleAmong(disk, Subdirectories(disk, baseDirectory), alive);
        assert Under(c, c);
      }
      assert again == {};
      RemoveNoTrees(d);
    }
  }

  /**
   * Disposing an engine never removes anything below the directory of another live
   * process: its own clean-up stays inside its own process directory, and the sweep
   * spares every live process.
   */
  lemma DisposalSparesLiveProcesses(disk: Disk, baseDirectory: Path, processId: int, salt: int,
                                    otherId: int, alive: int -> bool)
    requires IsInt32(processId) && IsInt32(salt) && IsInt32(otherId)
    requires otherId != processId && alive(otherId)
    ensures var processDirectory := baseDirectory + [Int32ToString(processId)];
            var buildDirectory := BuildDirectoryFor(processDirectory, salt);
            var afterSelf := SelfCleanup(disk, buildDirectory, processDirectory, baseDirectory);
            var other := baseDirectory + [Int32ToString(otherId)];
            && (forall x :: x in disk.dirs && Under(x, other) ==> x in Swept(afterSelf, baseDirectory, alive).dirs)
            && (forall f :: f in disk.files && Under(f, other) ==> f in Swept(afterSelf, baseDirectory, alive).files)
  {
    var processDirectory := baseDirectory + [Int32ToString(processId)];
    var buildDirectory := BuildDirectoryFor(processDirectory, salt);
    var afterSelf := SelfCleanup(disk, buildDirectory, processDirectory, baseDirectory);
    var other := baseDirectory + [Int32ToString(otherId)];
    if Int32ToString(otherId) == Int32ToString(processId) {
      Int32ToStringInjective(otherId, processId);
    }
    SelfCleanupEffects(disk, buildDirectory, processDirectory, baseDirectory);
    forall x | x in disk.dirs && Under(x, other) ensures x in afterSelf.dirs {
      assert x[|baseDirectory|] == Int32ToString(otherId);
    }
    forall f | f in disk.files && Under(f, other) ensures f in afterSelf.files {
      assert f[|baseDirectory|] == Int32ToString(otherId);
    }
    CurrentProcessSurvivesSweep(afterSelf, baseDirectory, otherId, alive);
  }
}
