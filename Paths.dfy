/**
 * Paths. A normalised absolute path (what Path.GetFullPath returns) is a sequence of
 * components, the root being []; `Text` renders it as the string the engine stores and
 * compares. Content names are plain strings, and the .NET string operations the engine
 * applies to them (GetDirectoryName, GetFileName, GetFileNameWithoutExtension, Combine)
 * are modelled with one separator character.
 */
module Paths {
  import opened Wrappers

  const Sep: char := '/'

  type Path = seq<string>

  predicate ValidComponent(c: string) {
    c != "" && Sep !in c
  }

  predicate ValidPath(p: Path) {
    forall i :: 0 <= i < |p| ==> ValidComponent(p[i])
  }

  function Parent(p: Path): Path
    requires p != []
  {
    p[..|p| - 1]
  }

  /** `x` is `p` itself or lies somewhere inside `p`. */
  predicate Under(x: Path, p: Path) {
    |p| <= |x| && x[..|p|] == p
  }

  /** Components joined by the separator: "a/b/c". */
  function Relative(p: Path): string {
    if p == [] then ""
    else if |p| == 1 then p[0]
    else Relative(p[..|p| - 1]) + [Sep] + p[|p| - 1]
  }

  /** The string form of a full path: "/" for the root, "/a/b/c" otherwise. */
  function Text(p: Path): string {
    [Sep] + Relative(p)
  }

  /** The relative part of a descendant follows its ancestor's text and one separator. */
  lemma {:induction false} RelativeAppend(p: Path, rest: Path)
    requires p != [] && rest != []
    ensures Relative(p + rest) == Relative(p) + [Sep] + Relative(rest)
    decreases |rest|
  {
    if |rest| == 1 {
      assert (p + rest)[..|p + rest| - 1] == p;
    } else {
      var init := rest[..|rest| - 1];
      assert (p + rest)[..|p + rest| - 1] == p + init;
      RelativeAppend(p, init);
    }
  }

  /**
   * The text of a path below `dir`: the text of `dir`, a separator, and the relative
   * path from `dir`. At the root the separator is the root's own single character.
   */
  lemma TextOfDescendant(dir: Path, rest: Path)
    requires rest != []
    ensures dir != [] ==> Text(dir + rest) == Text(dir) + [Sep] + Relative(rest)
    ensures dir == [] ==> Text(dir + rest) == Text(dir) + Relative(rest)
  {
    if dir != [] {
      RelativeAppend(dir, rest);
    } else {
      assert dir + rest == rest;
    }
  }

  lemma {:induction false} RelativeShape(p: Path)
    requires ValidPath(p) && p != []
    ensures |Relative(p)| > 0 && Relative(p)[|Relative(p)| - 1] != Sep
    ensures Relative(p)[0] != Sep
  {
    if |p| > 1 {
      RelativeShape(p[..|p| - 1]);
    }
  }

  /** Last occurrence of `c`, or -1 (String.LastIndexOf). */
  function LastIndexOf(s: string, c: char): (r: int)
    ensures -1 <= r < |s|
    ensures r >= 0 ==> s[r] == c
    ensures forall i :: r < i < |s| ==> s[i] != c
  {
    if s == [] then -1
    else if s[|s| - 1] == c then |s| - 1
    else LastIndexOf(s[..|s| - 1], c)
  }

  /** Path.GetFileName: everything after the last separator. */
  function FileName(s: string): (r: string)
    ensures |r| <= |s| && s[|s| - |r|..] == r
    ensures Sep !in r
    ensures Sep !in s ==> r == s
  {
    s[LastIndexOf(s, Sep) + 1..]
  }

  /** The file-name part of a full path is its last component. */
  lemma FileNameOfText(p: Path)
    requires ValidPath(p) && p != []
    ensures FileName(Text(p)) == p[|p| - 1]
  {
    if |p| == 1 {
      assert Text(p) == [Sep] + p[0];
    } else {
      TextOfDescendant(Parent(p), [p[|p| - 1]]);
      assert Parent(p) + [p[|p| - 1]] == p;
    }
    var t, n := Text(p), p[|p| - 1];
    assert t[|t| - |n| - 1] == Sep;
    assert forall i :: |t| - |n| <= i < |t| ==> t[i] == n[i - (|t| - |n|)];
    assert LastIndexOf(t, Sep) == |t| - |n| - 1;
  }

  /** Path.GetDirectoryName of a non-empty name: up to the last separator ("" if none). */
  function DirectoryName(s: string): (r: string)
    ensures |r| <= |s| && s[..|r|] == r
    ensures r == "" <==> Sep !in s
  {
    var i := LastIndexOf(s, Sep);
    if i < 0 then "" else if i == 0 then [Sep] else s[..i]
  }

  /** The file name up to its last '.'. */
  function Stem(name: string): (r: string)
    ensures |r| <= |name| && name[..|r|] == r
    ensures '.' !in name ==> r == name
    ensures '.' in name ==> |r| < |name| && name[|r|] == '.' && '.' !in name[|r| + 1..]
  {
    var j := LastIndexOf(name, '.');
    if j < 0 then name else name[..j]
  }

  /** Path.GetFileNameWithoutExtension: the file name up to its last '.'. */
  function FileNameWithoutExtension(s: string): (r: string)
    ensures |r| <= |FileName(s)| && FileName(s)[..|r|] == r
    ensures Sep !in r
    ensures Sep !in s && '.' !in s ==> r == s
    ensures var n := FileName(s);
            '.' in n ==> |r| < |n| && n[|r|] == '.' && '.' !in n[|r| + 1..]
  {
    Stem(FileName(s))
  }

  /** Path.Combine for a relative second part. */
  function Combine(a: string, b: string): (r: string)
    ensures |a| <= |r| && |b| <= |r| <= |a| + |b| + 1
    ensures r[..|a|] == a && r[|r| - |b|..] == b
    ensures a != "" && b != "" && a[|a| - 1] != Sep ==> |r| == |a| + |b| + 1 && r[|a|] == Sep
  {
    if b == "" then a
    else if a == "" then b
    else if a[|a| - 1] == Sep then a + b
    else a + [Sep] + b
  }

  /**
   * Combine(GetDirectoryName(s), GetFileNameWithoutExtension(s)); None where
   * GetDirectoryName("") throws ArgumentException.
   */
  function StripExtension(s: string): (r: Option<string>)
    ensures r.None? <==> s == ""
    ensures r.Some? ==> |r.value| <= |s|
  {
    if s == "" then None else Some(Combine(DirectoryName(s), FileNameWithoutExtension(s)))
  }

  /** A stem is the name with at most its last extension ('.' and no further '.') cut off. */
  lemma StemSplitsAtLastDot(name: string)
    ensures name == Stem(name) + name[|Stem(name)|..]
    ensures var ext := name[|Stem(name)|..];
            && (ext == "" <==> '.' !in name)
            && (ext != "" ==> ext[0] == '.' && '.' !in ext[1..])
    ensures '.' !in name ==> Stem(name) == name
  {
    var j := LastIndexOf(name, '.');
    if j >= 0 {
      assert name == name[..j] + name[j..];
      var tail := name[j + 1..];
      assert forall i :: 0 <= i < |tail| ==> tail[i] == name[j + 1 + i];
    }
  }

  /**
   * Stripping the extension of "dir/name" keeps the directory part and removes only
   * the last extension of the final component; a name that is all extension
   * (".png") leaves only the directory.
   */
  lemma StripExtensionOfNested(dir: string, name: string)
    requires dir != "" && dir[|dir| - 1] != Sep
    requires name != "" && Sep !in name
    ensures StripExtension(dir + [Sep] + name)
         == Some(if Stem(name) == "" then dir else dir + [Sep] + Stem(name))
  {
    SplitAtLastSeparator(dir, name);
    var stem := Stem(name);
    assert Combine(dir, stem) == if stem == "" then dir else dir + [Sep] + stem;
  }

  /** GetDirectoryName and GetFileName split "dir/name" at its last separator. */
  lemma SplitAtLastSeparator(dir: string, name: string)
    requires dir != "" && dir[|dir| - 1] != Sep
    requires name != "" && Sep !in name
    ensures DirectoryName(dir + [Sep] + name) == dir
    ensures FileName(dir + [Sep] + name) == name
  {
    var s := dir + [Sep] + name;
    assert s[|dir|] == Sep;
    forall i | |dir| < i < |s| ensures s[i] != Sep {
      assert s[i] == name[i - |dir| - 1];
    }
    assert LastIndexOf(s, Sep) == |dir|;
    assert s[..|dir|] == dir;
    assert s[|dir| + 1..] == name;
  }

  /** A name without separator loses only its last extension. */
  lemma StripExtensionOfName(name: string)
    requires name != "" && Sep !in name
    ensures StripExtension(name) == Some(Stem(name))
  {
    assert LastIndexOf(name, Sep) == -1;
    assert name[0..] == name;
  }

  /**
   * Path.GetFullPath as a given normalisation function: it always yields a valid full
   * path and leaves the text of a valid full path alone.
   */
  ghost predicate IsNormaliser(fullPath: string -> Path) {
    && (forall s :: ValidPath(fullPath(s)))
    && (forall p :: ValidPath(p) ==> fullPath(Text(p)) == p)
  }
}
