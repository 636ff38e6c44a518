/**
 * The part of the file system the engine touches, as a value: the existing
 * directories and files, and the paths that cannot be deleted (in use, access
 * denied). The System.IO calls the
 * engine makes are functions on it; a call that would throw yields None.
 */
module FileSystem {
  import opened Wrappers
  import opened Paths

  datatype Disk = Disk(dirs: set<Path>, files: set<Path>, locked: set<Path>)

  /** A name the pattern "*.contentproj" of Directory.GetFiles accepts (compared case-sensitively). */
  predicate IsProjectFileName(name: string) {
    |name| >= |".contentproj"| && name[|name| - |".contentproj"|..] == ".contentproj"
  }

  /**
   * The directories for which Directory.GetFiles(directory, "*.contentproj") is not
   * empty: the parents of the project files on the disk.
   */
  function ProjectDirs(d: Disk): (r: set<Path>)
    ensures forall f :: f in d.files && f != [] && IsProjectFileName(f[|f| - 1]) ==> Parent(f) in r
    ensures forall x :: x in r ==> exists f :: f in d.files && f != [] && IsProjectFileName(f[|f| - 1]) && Parent(f) == x
  {
    set f | f in d.files && f != [] && IsProjectFileName(f[|f| - 1]) :: Parent(f)
  }

  predicate UnderAny(x: Path, roots: set<Path>) {
    exists r :: r in roots && Under(x, r)
  }

  /** The disk after the directory trees rooted at `roots` are gone. */
  function RemoveTrees(d: Disk, roots: set<Path>): Disk {
    Disk((set x | x in d.dirs && !UnderAny(x, roots)),
         (set f | f in d.files && !UnderAny(f, roots)),
         d.locked)
  }

  /** Directory.GetDirectories(p): the immediate subdirectories. */
  function Subdirectories(d: Disk, p: Path): (r: set<Path>)
    ensures forall c :: c in r <==> c in d.dirs && c != [] && Parent(c) == p
  {
    set c | c in d.dirs && |c| == |p| + 1 && c[..|p|] == p
  }

  /** Directory.Delete(p, true) succeeds: p exists and nothing in its tree is locked. */
  predicate Deletable(d: Disk, p: Path) {
    p in d.dirs && forall l :: l in d.locked ==> !Under(l, p)
  }

  /** Directory.Delete(p, true). */
  function DeleteTree(d: Disk, p: Path): (r: Option<Disk>)
    ensures r.Some? <==> Deletable(d, p)
    ensures r.Some? ==> forall x :: x in r.value.dirs <==> x in d.dirs && !Under(x, p)
    ensures r.Some? ==> forall f :: f in r.value.files <==> f in d.files && !Under(f, p)
    ensures r.Some? ==> r.value.locked == d.locked
  {
    if Deletable(d, p) then Some(RemoveTrees(d, {p})) else None
  }

  /** Directory.Delete(p): only an existing, unlocked, empty directory goes. */
  function DeleteEmpty(d: Disk, p: Path): (r: Option<Disk>)
    ensures r.Some? <==> && p in d.dirs && p !in d.locked
                         && (forall x :: x in d.dirs && Under(x, p) ==> x == p)
                         && (forall f :: f in d.files ==> !Under(f, p))
    ensures r.Some? ==> r.value.dirs == d.dirs - {p} && r.value.files == d.files && r.value.locked == d.locked
  {
    if p !in d.dirs || p in d.locked
       || (exists x :: x in d.dirs && x != p && Under(x, p))
       || (exists f :: f in d.files && Under(f, p))
    then None
    else Some(Disk(d.dirs - {p}, d.files, d.locked))
  }

  /** The path and all its ancestors, the root included. */
  function Prefixes(p: Path): (r: set<Path>)
    ensures p in r
    ensures forall x :: x in r <==> Under(p, x)
  {
    var r := set k | 0 <= k <= |p| :: p[..k];
    assert p[..|p|] == p;
    assert forall x :: Under(p, x) ==> x == p[..|x|];
    r
  }

  /**
   * Directory.CreateDirectory(p): p and those of its ancestors that are missing are
   * added; nothing else changes.
   */
  function CreateDirectory(d: Disk, p: Path): (r: Disk)
    ensures p in r.dirs && d.dirs <= r.dirs
    ensures forall x :: x in r.dirs && x !in d.dirs ==> Under(p, x)
    ensures forall x :: Under(p, x) ==> x in r.dirs
    ensures r.files == d.files && r.locked == d.locked
  {
    Disk(d.dirs + Prefixes(p), d.files, d.locked)
  }

  /** Removing trees elsewhere does not change whether a directory can be deleted. */
  lemma RemoveTreesKeepsDeletable(d: Disk, roots: set<Path>, p: Path)
    requires !UnderAny(p, roots)
    ensures Deletable(RemoveTrees(d, roots), p) == Deletable(d, p)
  {
  }

  /** Removing no trees changes nothing. */
  lemma RemoveNoTrees(d: Disk)
    ensures RemoveTrees(d, {}) == d
  {
    assert forall x :: !UnderAny(x, {});
  }

  /** Removing trees one after another is removing them all. */
  lemma RemoveTreesTwice(d: Disk, a: set<Path>, b: set<Path>)
    ensures RemoveTrees(RemoveTrees(d, a), b) == RemoveTrees(d, a + b)
  {
    assert forall x :: UnderAny(x, a + b) <==> UnderAny(x, a) || UnderAny(x, b);
  }

  /** Two different immediate subdirectories of one directory share no descendants. */
  lemma SiblingTreesDisjoint(d: Disk, p: Path, c1: Path, c2: Path, x: Path)
    requires c1 in Subdirectories(d, p) && c2 in Subdirectories(d, p)
    requires Under(x, c1) && Under(x, c2)
    ensures c1 == c2
  {
    assert c1 == x[..|c1|] && c2 == x[..|c2|];
  }
}
