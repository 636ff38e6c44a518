/**
 * Queued content files and how Add(filename, importer, processor) builds one: the full
 * path, the existence check, the content root (an override directory, or the nearest
 * directory holding a .contentproj file), the content name relative to that root, and
 * the optional stripping of the extension.
 */
module ContentFiles {
  import opened Wrappers
  import opened Paths
  import opened FileSystem
  import opened TypeMappings

  /** QueuedContentFile: one source file with its content name and its pipeline types. */
  datatype QueuedContentFile = QueuedContentFile(
    filename: string,
    contentName: string,
    importerType: Option<TypeId>,
    processorType: Option<TypeId>)

  /** The exceptions Add lets through. */
  datatype Error =
      /** ContentEngineException "No TypeMapping found for ...". */
    | NoTypeMapping(filename: string)
      /** FileNotFoundException for the full path. */
    | FileNotFound(path: string)
      /** ContentEngineException "File ... is outside of the defined content directory ...";
          the message names the output directory. */
    | OutsideContentDirectory(path: string, reported: string)
      /** String.Substring past the end of the path. */
    | ArgumentOutOfRange
      /** Path.GetFullPath(null) once the upward search passes the root. */
    | ArgumentNull
      /** Path.GetDirectoryName("") when an empty content name has its extension stripped. */
    | IllegalPath
      /** Dictionary.Add of a full path that is already queued. */
    | DuplicateKey(path: string)

  /**
   * The walk from `directory` upward: the first directory, `directory` itself included,
   * that holds a project file.
   */
  function SearchUpward(projectDirs: set<Path>, directory: Path): (r: Option<Path>)
    ensures r.Some? ==> r.value in projectDirs && Under(directory, r.value)
    ensures r.Some? ==> forall k :: |r.value| < k <= |directory| ==> directory[..k] !in projectDirs
    ensures r.None? ==> forall k :: 0 <= k <= |directory| ==> directory[..k] !in projectDirs
    decreases |directory|
  {
    if directory in projectDirs then Some(directory)
    else if directory == [] then None
    else
      var up := Parent(directory);
      assert forall k :: 0 <= k <= |up| ==> up[..k] == directory[..k];
      assert directory[..|directory|] == directory;
      SearchUpward(projectDirs, up)
  }

  /**
   * The content root FindNearestContentProjectDirectory finds for a file: the nearest
   * strict ancestor holding a project file; every directory passed on the way holds
   * none; None when no ancestor does.
   */
  function NearestProjectDirectory(projectDirs: set<Path>, file: Path): (r: Option<Path>)
    ensures r.Some? ==> |r.value| < |file| && file[..|r.value|] == r.value && r.value in projectDirs
    ensures r.Some? ==> forall k :: |r.value| < k < |file| ==> file[..k] !in projectDirs
    ensures r.None? ==> forall k :: 0 <= k < |file| ==> file[..k] !in projectDirs
  {
    if file == [] then None
    else
      var up := Parent(file);
      assert forall k :: 0 <= k <= |up| ==> up[..k] == file[..k];
      SearchUpward(projectDirs, up)
  }

  /**
   * FindNearestContentProjectDirectory: starting from the file's directory, test each
   * directory for a project file and move to its parent, normalising every directory
   * name with GetFullPath as the source does. None stands for the ArgumentNullException
   * GetFullPath throws when GetDirectoryName of the root returns null.
   */
  method FindNearestContentProjectDirectory(projectDirs: set<Path>, fullPath: string -> Path, contentFilename: Path)
    returns (r: Option<Path>)
    requires IsNormaliser(fullPath) && ValidPath(contentFilename)
    ensures r == NearestProjectDirectory(projectDirs, contentFilename)
    ensures r.Some? ==> |r.value| < |contentFilename| && contentFilename[..|r.value|] == r.value
    ensures r.Some? ==> r.value in projectDirs
    ensures r.Some? ==> forall k :: |r.value| < k < |contentFilename| ==> contentFilename[..k] !in projectDirs
    ensures r.None? ==> forall k :: 0 <= k < |contentFilename| ==> contentFilename[..k] !in projectDirs
  {
    if contentFilename == [] {
      return None;
    }
    var directory := fullPath(Text(Parent(contentFilename)));
    while true
      invariant ValidPath(directory)
      invariant SearchUpward(projectDirs, directory) == NearestProjectDirectory(projectDirs, contentFilename)
      decreases |directory|
    {
      if directory in projectDirs {
        return Some(directory);
      }
      if directory == [] {
        return None;
      }
      directory := fullPath(Text(Parent(directory)));
    }
  }

  /** String.StartsWith, compared character by character. */
  function StartsWith(s: string, prefix: string): (r: bool)
    ensures r <==> exists rest :: s == prefix + rest
  {
    if |prefix| <= |s| && s[..|prefix|] == prefix then
      assert s == prefix + s[|prefix|..];
      true
    else
      false
  }

  /** String.Substring(start): the characters from `start` on, or ArgumentOutOfRange past the end. */
  function Substring(s: string, start: nat): (r: Result<string, Error>)
    ensures r.Success? <==> start <= |s|
    ensures r.Success? ==> s == s[..start] + r.value
    ensures r.Failure? ==> r.error == ArgumentOutOfRange
  {
    if start <= |s| then Success(s[start..]) else Failure(ArgumentOutOfRange)
  }

  /**
   * The content name before extension stripping: the full path's text with the root's
   * length plus one characters removed, the root being the override content directory
   * (which must be a string prefix of the path) or the nearest project directory.
   */
  function BaseName(disk: Disk, contentDirectory: Option<string>, outputDirectory: Path, full: Path): (r: Result<string, Error>)
    ensures r.Success? ==> |r.value| < |Text(full)| && Text(full)[|Text(full)| - |r.value|..] == r.value
    ensures r.Failure? ==> r.error.OutsideContentDirectory? || r.error == ArgumentOutOfRange || r.error == ArgumentNull
    ensures contentDirectory.Some? ==>
              (r.Failure? && r.error.OutsideContentDirectory? <==> !StartsWith(Text(full), contentDirectory.value))
    ensures contentDirectory.None? ==>
              (r == Failure(ArgumentNull) <==> NearestProjectDirectory(ProjectDirs(disk), full).None?)
    ensures contentDirectory.Some? && StartsWith(Text(full), contentDirectory.value) ==>
              (r.Success? <==> |contentDirectory.value| + 1 <= |Text(full)|)
    ensures contentDirectory.Some? && r.Success? ==> |r.value| == |Text(full)| - |contentDirectory.value| - 1
    ensures contentDirectory.None? && r.Success? ==>
              var dir := NearestProjectDirectory(ProjectDirs(disk), full);
              dir.Some? && |r.value| == |Text(full)| - |Text(dir.value)| - 1
  {
    var path := Text(full);
    match contentDirectory
    case Some(root) =>
      if !StartsWith(path, root) then Failure(OutsideContentDirectory(path, Text(outputDirectory)))
      else Substring(path, |root| + 1)
    case None =>
      match NearestProjectDirectory(ProjectDirs(disk), full)
      case None => Failure(ArgumentNull)
      case Some(dir) => Substring(path, |Text(dir)| + 1)
  }

  /** The content name after the optional stripping of its extension. */
  function ContentName(baseName: string, stripFileExtensions: bool): (r: Result<string, Error>)
    ensures !stripFileExtensions ==> r == Success(baseName)
    ensures r.Failure? <==> stripFileExtensions && baseName == ""
    ensures r.Failure? ==> r.error == IllegalPath
    ensures r.Success? ==> |r.value| <= |baseName|
  {
    if !stripFileExtensions then Success(baseName)
    else match StripExtension(baseName)
      case None => Failure(IllegalPath)
      case Some(name) => Success(name)
  }

  /**
   * The entry Add(filename, importer, processor) queues, or what it throws before
   * touching the queue.
   */
  function NewEntry(disk: Disk, fullPath: string -> Path, contentDirectory: Option<string>, stripFileExtensions: bool,
                    outputDirectory: Path, filename: string, importerType: Option<TypeId>, processorType: Option<TypeId>)
    : (r: Result<QueuedContentFile, Error>)
    requires IsNormaliser(fullPath)
    ensures fullPath(filename) !in disk.files ==> r == Failure(FileNotFound(Text(fullPath(filename))))
    ensures fullPath(filename) in disk.files && r.Failure? ==> !r.error.FileNotFound? && !r.error.NoTypeMapping?
    ensures r.Success? ==> fullPath(filename) in disk.files
    ensures r.Success? ==> r.value.filename == Text(fullPath(filename))
    ensures r.Success? ==> r.value.importerType == importerType && r.value.processorType == processorType
  {
    var full := fullPath(filename);
    if full !in disk.files then Failure(FileNotFound(Text(full)))
    else
      var baseName :- BaseName(disk, contentDirectory, outputDirectory, full);
      var contentName :- ContentName(baseName, stripFileExtensions);
      Success(QueuedContentFile(Text(full), contentName, importerType, processorType))
  }

  /**
   * Without an override directory, a file below a non-root project directory gets the
   * path relative to that directory as its content name; with stripping, only the last
   * extension of the last component goes ("Textures/foo.png" becomes "Textures/foo").
   */
  lemma ContentNameBelowProject(disk: Disk, full: Path, dir: Path, strip: bool, outputDirectory: Path)
    requires ValidPath(full)
    requires NearestProjectDirectory(ProjectDirs(disk), full) == Some(dir) && dir != []
    ensures var rel := full[|dir|..];
            var name := full[|full| - 1];
            BaseName(disk, None, outputDirectory, full) == Success(Relative(rel))
            && (strip && Stem(name) != "" && |rel| > 1 ==>
                  ContentName(Relative(rel), strip) == Success(Relative(rel[..|rel| - 1]) + [Sep] + Stem(name)))
            && (strip && |rel| == 1 ==> ContentName(Relative(rel), strip) == Success(Stem(name)))
  {
    var rel := full[|dir|..];
    assert full == dir + rel;
    TextOfDescendant(dir, rel);
    assert Text(full)[|Text(dir)| + 1..] == Relative(rel);
    assert full[|full| - 1] == rel[|rel| - 1];
    StripRelative(rel);
  }

  /** Stripping the extension of a relative path removes only the last extension of its last component. */
  lemma StripRelative(rel: Path)
    requires ValidPath(rel) && rel != []
    ensures var name := rel[|rel| - 1];
            && (Stem(name) != "" && |rel| > 1 ==>
                  ContentName(Relative(rel), true) == Success(Relative(rel[..|rel| - 1]) + [Sep] + Stem(name)))
            && (|rel| == 1 ==> ContentName(Relative(rel), true) == Success(Stem(name)))
  {
    var name := rel[|rel| - 1];
    assert ValidComponent(name);
    if |rel| > 1 {
      var init := rel[..|rel| - 1];
      assert ValidPath(init);
      RelativeShape(init);
      StripExtensionOfNested(Relative(init), name);
    } else {
      StripExtensionOfName(name);
    }
  }

  /**
   * A project file in the root directory itself: the root's text is one character
   * long, so the content name loses the first character of the relative path.
   */
  lemma ContentNameBelowRootProject(disk: Disk, full: Path, outputDirectory: Path)
    requires ValidPath(full)
    requires NearestProjectDirectory(ProjectDirs(disk), full) == Some([])
    ensures BaseName(disk, None, outputDirectory, full) == Success(Relative(full)[1..])
  {
    RelativeShape(full);
    assert |Text([])| + 1 == 2;
    assert Text(full)[2..] == Relative(full)[1..];
    assert BaseName(disk, None, outputDirectory, full) == Substring(Text(full), 2);
  }

  /** With an override directory that is a non-root directory above the file, the name is relative to it. */
  lemma ContentNameBelowOverride(disk: Disk, full: Path, root: Path, outputDirectory: Path)
    requires ValidPath(full) && |root| < |full| && full[..|root|] == root && root != []
    ensures BaseName(disk, Some(Text(root)), outputDirectory, full) == Success(Relative(full[|root|..]))
  {
    var rel := full[|root|..];
    assert full == root + rel;
    TextOfDescendant(root, rel);
    assert Text(full)[..|Text(root)|] == Text(root);
  }

  /**
   * The override test is a string prefix test, not directory containment: with the
   * override "/Content", "/ContentX/a.png" is accepted and named "/a.png"; a file the
   * prefix does not cover is refused, the message naming the output directory.
   */
  lemma OverrideIsPlainPrefix(disk: Disk, outputDirectory: Path)
    ensures BaseName(disk, Some("/Content"), outputDirectory, ["ContentX", "a.png"]) == Success("/a.png")
    ensures BaseName(disk, Some("/Content"), outputDirectory, ["Other", "a.png"])
         == Failure(OutsideContentDirectory("/Other/a.png", Text(outputDirectory)))
  {
    assert Text(["ContentX", "a.png"]) == "/ContentX/a.png" by {
      assert ["ContentX", "a.png"][..1] == ["ContentX"];
    }
    assert Text(["Other", "a.png"]) == "/Other/a.png" by {
      assert ["Other", "a.png"][..1] == ["Other"];
    }
    assert "/Other/a.png"[..8][1] != "/Content"[1];
  }

  /**
   * An override ending in a separator makes Substring(Length + 1) drop one character
   * too many: with the override "/Content/", "/Content/a.png" gets the base name ".png",
   * whose stripped content name is empty.
   */
  lemma OverrideWithTrailingSeparator(disk: Disk, outputDirectory: Path)
    ensures BaseName(disk, Some("/Content/"), outputDirectory, ["Content", "a.png"]) == Success(".png")
    ensures ContentName(".png", true) == Success("")
  {
    assert Text(["Content", "a.png"]) == "/Content/a.png" by {
      assert ["Content", "a.png"][..1] == ["Content"];
    }
    assert "/Content/a.png"[..9] == "/Content/";
    assert LastIndexOf(".png", Sep) == -1;
    var png := ".png";
    assert png[0] == '.' && png[1] != '.' && png[2] != '.' && png[3] != '.';
    assert LastIndexOf(png, '.') == 0;
  }
}
