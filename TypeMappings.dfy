/**
 * Type mappings and their resolution: the ordered, first-match scan over the caller's
 * mappings and then, when enabled, over the built-in table of standard XNA content
 * types.
 */
module TypeMappings {
  import opened Wrappers

  /** A CLR Type reference, known by its Type.Name (the name Build writes into the project). */
  datatype TypeId = TypeId(name: string)

  /** A mapping's FileMatcher. */
  datatype Matcher =
      /** A caller's regular expression; the .NET regex engine is injected as `regexIsMatch`. */
    | Pattern(regex: string)
      /** The built-in patterns `.*\.(e1|e2|...)$`, evaluated here without a regex engine. */
    | Extensions(extensions: seq<string>)

  /** An importer or processor may be left null, hence the options. */
  datatype TypeMapping = TypeMapping(fileMatcher: Matcher, importerType: Option<TypeId>, processorType: Option<TypeId>)

  predicate EndsWith(s: string, suffix: string) {
    |suffix| <= |s| && s[|s| - |suffix|..] == suffix
  }

  /**
   * Regex.IsMatch, a search rather than a whole-string test. For `.*\.e$` it holds
   * exactly when the name ends in ".e", or in ".e" and one final newline, which .NET's
   * `$` also accepts. Case-sensitive.
   */
  predicate IsMatch(m: Matcher, filename: string, regexIsMatch: (string, string) -> bool) {
    match m
    case Pattern(regex) => regexIsMatch(regex, filename)
    case Extensions(exts) => exists i :: 0 <= i < |exts| && HasExtension(filename, exts[i])
  }

  /** `.*\.ext$` as a search: ".ext" at the very end, or just before one final newline. */
  predicate HasExtension(filename: string, ext: string) {
    EndsWith(filename, "." + ext) || EndsWith(filename, "." + ext + "\n")
  }

  /**
   * Where `\.ext$` matches in a .NET search for `.*\.ext$` (the `.*` matching the empty
   * string there): ".ext" starts at `j` and is followed by the end of the name or by one
   * final newline.
   */
  predicate ExtensionSearchAt(filename: string, j: int, ext: string) {
    var e := j + 1 + |ext|;
    && 0 <= j && e <= |filename| && filename[j..e] == "." + ext
    && (e == |filename| || (e == |filename| - 1 && filename[e] == '\n'))
  }

  /** The suffix test is the regular-expression search. */
  lemma HasExtensionIsRegexSearch(filename: string, ext: string)
    ensures HasExtension(filename, ext) <==> exists j :: ExtensionSearchAt(filename, j, ext)
  {
    var n, dotted := |filename|, "." + ext;
    assert |dotted| == 1 + |ext|;
    if EndsWith(filename, dotted) {
      assert filename[n - |dotted|..n] == dotted;
      assert ExtensionSearchAt(filename, n - |dotted|, ext);
    } else if EndsWith(filename, dotted + "\n") {
      assert filename[n - 1 - |dotted|..n - 1] == dotted;
      assert ExtensionSearchAt(filename, n - 1 - |dotted|, ext);
    }
    if exists j :: ExtensionSearchAt(filename, j, ext) {
      var j :| ExtensionSearchAt(filename, j, ext);
      if j + |dotted| < n {
        assert filename[j..] == filename[j..j + |dotted|] + [filename[n - 1]];
      }
    }
  }

  /** An alternation of extensions matches when one of its extensions is found by the search. */
  lemma ExtensionsMatcherIsRegexSearch(exts: seq<string>, filename: string, regexIsMatch: (string, string) -> bool)
    ensures IsMatch(Extensions(exts), filename, regexIsMatch) <==>
            exists k, j :: 0 <= k < |exts| && ExtensionSearchAt(filename, j, exts[k])
  {
    forall k | 0 <= k < |exts| {
      HasExtensionIsRegexSearch(filename, exts[k]);
    }
  }

  /** The helper `T` of the built-in table: both types given. */
  function T(extensions: seq<string>, importer: string, processor: string): TypeMapping {
    TypeMapping(Extensions(extensions), Some(TypeId(importer)), Some(TypeId(processor)))
  }

  /** The built-in table, in its order. The first entry says "fbw", as written. */
  const DefaultTypeMappings: seq<TypeMapping> := [
    T(["fbw"], "FbxImporter", "ModelProcessor"),
    T(["x"], "XImporter", "ModelProcessor"),
    T(["fx"], "EffectImporter", "PassThroughProcessor"),
    T(["spritefont"], "FontDescriptionImporter", "FontDescriptionProcessor"),
    T(["bmp", "dds", "dib", "hdr", "jpg", "jpeg", "pfm", "png", "ppm", "tga"], "TextureImporter", "TextureProcessor"),
    T(["wav"], "WavImporter", "SoundEffectProcessor"),
    T(["mp3"], "Mp3Importer", "SoundEffectProcessor"),
    T(["wma"], "WmaImporter", "SoundEffectProcessor"),
    T(["wmv"], "WmvImporter", "VideoProcessor")
  ]

  /**
   * The built-in table has nine entries, each an alternation of extensions naming both
   * an importer and a processor.
   */
  lemma DefaultTableShape()
    ensures |DefaultTypeMappings| == 9
    ensures forall i :: 0 <= i < |DefaultTypeMappings| ==>
              && DefaultTypeMappings[i].fileMatcher.Extensions?
              && DefaultTypeMappings[i].importerType.Some?
              && DefaultTypeMappings[i].processorType.Some?
  {
  }

  predicate MatchesAt(mappings: seq<TypeMapping>, i: int, filename: string, regexIsMatch: (string, string) -> bool)
    requires 0 <= i < |mappings|
  {
    IsMatch(mappings[i].fileMatcher, filename, regexIsMatch)
  }

  /** `i` is the first position whose mapping matches. */
  predicate IsFirstMatch(mappings: seq<TypeMapping>, i: int, filename: string, regexIsMatch: (string, string) -> bool) {
    && 0 <= i < |mappings|
    && MatchesAt(mappings, i, filename, regexIsMatch)
    && forall j :: 0 <= j < i ==> !MatchesAt(mappings, j, filename, regexIsMatch)
  }

  predicate NoMatch(mappings: seq<TypeMapping>, filename: string, regexIsMatch: (string, string) -> bool) {
    forall j :: 0 <= j < |mappings| ==> !MatchesAt(mappings, j, filename, regexIsMatch)
  }

  /** The scan of FirstOrDefault from position `from` on. */
  function FirstMatchFrom(mappings: seq<TypeMapping>, from: nat, filename: string,
                          regexIsMatch: (string, string) -> bool): (r: Option<nat>)
    requires from <= |mappings|
    ensures r.Some? ==> from <= r.value && IsFirstMatchFrom(mappings, from, r.value, filename, regexIsMatch)
    ensures r.None? ==> forall j :: from <= j < |mappings| ==> !MatchesAt(mappings, j, filename, regexIsMatch)
    decreases |mappings| - from
  {
    if from == |mappings| then None
    else if MatchesAt(mappings, from, filename, regexIsMatch) then Some(from)
    else FirstMatchFrom(mappings, from + 1, filename, regexIsMatch)
  }

  predicate IsFirstMatchFrom(mappings: seq<TypeMapping>, from: nat, i: int, filename: string,
                             regexIsMatch: (string, string) -> bool) {
    && 0 <= i < |mappings|
    && MatchesAt(mappings, i, filename, regexIsMatch)
    && forall j :: from <= j < i ==> !MatchesAt(mappings, j, filename, regexIsMatch)
  }

  /** Position of FirstOrDefault(t => t.FileMatcher.IsMatch(filename)). */
  function FirstMatch(mappings: seq<TypeMapping>, filename: string, regexIsMatch: (string, string) -> bool): (r: Option<nat>)
    ensures r.Some? ==> IsFirstMatch(mappings, r.value, filename, regexIsMatch)
    ensures r.None? ==> NoMatch(mappings, filename, regexIsMatch)
  {
    FirstMatchFrom(mappings, 0, filename, regexIsMatch)
  }

  /**
   * The mapping Add(filename) uses: the first matching caller mapping; failing that,
   * and only when the defaults are enabled, the first matching built-in one; else none.
   */
  function Resolve(typeMappings: seq<TypeMapping>, useDefaultTypeMappings: bool, filename: string,
                   regexIsMatch: (string, string) -> bool): (r: Option<TypeMapping>)
    ensures forall i :: IsFirstMatch(typeMappings, i, filename, regexIsMatch) ==> r == Some(typeMappings[i])
    ensures NoMatch(typeMappings, filename, regexIsMatch) && useDefaultTypeMappings ==>
              forall i :: IsFirstMatch(DefaultTypeMappings, i, filename, regexIsMatch) ==> r == Some(DefaultTypeMappings[i])
    ensures (NoMatch(typeMappings, filename, regexIsMatch)
             && (!useDefaultTypeMappings || NoMatch(DefaultTypeMappings, filename, regexIsMatch))) ==> r == None
  {
    match FirstMatch(typeMappings, filename, regexIsMatch)
    case Some(i) => Some(typeMappings[i])
    case None =>
      if !useDefaultTypeMappings then None
      else match FirstMatch(DefaultTypeMappings, filename, regexIsMatch)
        case Some(i) => Some(DefaultTypeMappings[i])
        case None => None
  }

  /**
   * A name that differs from ".ext" at the `k`-th character from the end, and does not
   * end in a newline, lacks the extension.
   */
  lemma MissesAt(filename: string, ext: string, k: nat)
    requires k <= |ext| && k < |filename|
    requires filename[|filename| - 1 - k] != ("." + ext)[|ext| - k]
    requires filename[|filename| - 1] != '\n'
    ensures !HasExtension(filename, ext)
  {
    var b := "." + ext + "\n";
    assert b[|b| - 1] == '\n';
  }

  /** An image goes to the texture pipeline; with the defaults off it is unmapped. */
  lemma ImageResolvesToTexturePipeline(regexIsMatch: (string, string) -> bool)
    ensures Resolve([], true, "Textures/orange.png", regexIsMatch)
         == Some(DefaultTypeMappings[4])
    ensures DefaultTypeMappings[4].importerType == Some(TypeId("TextureImporter"))
    ensures DefaultTypeMappings[4].processorType == Some(TypeId("TextureProcessor"))
    ensures Resolve([], false, "Textures/orange.png", regexIsMatch) == None
  {
    var table, png := DefaultTypeMappings, "Textures/orange.png";
    assert HasExtension(png, "png") && table[4].fileMatcher.extensions[7] == "png";
    forall ext | ext in ["fbw", "x", "fx", "spritefont"] ensures !HasExtension(png, ext) {
      MissesAt(png, ext, 0);
    }
    assert IsFirstMatch(table, 4, png, regexIsMatch);
  }

  /** An effect file goes to the effect importer and the pass-through processor. */
  lemma EffectResolvesToPassThrough(regexIsMatch: (string, string) -> bool)
    ensures Resolve([], true, "shader.fx", regexIsMatch)
         == Some(T(["fx"], "EffectImporter", "PassThroughProcessor"))
  {
    var table := DefaultTypeMappings;
    assert HasExtension("shader.fx", "fx") && table[2].fileMatcher.extensions[0] == "fx";
    MissesAt("shader.fx", "fbw", 0);
    MissesAt("shader.fx", "x", 1);
    assert IsFirstMatch(table, 2, "shader.fx", regexIsMatch);
  }

  /** The first built-in entry maps ".fbw" (as written), so a ".fbx" model is unmapped. */
  lemma FbxIsNotMappedByDefault(regexIsMatch: (string, string) -> bool)
    ensures Resolve([], true, "ship.fbw", regexIsMatch) == Some(T(["fbw"], "FbxImporter", "ModelProcessor"))
    ensures Resolve([], true, "ship.fbx", regexIsMatch) == None
  {
    var table, fbx := DefaultTypeMappings, "ship.fbx";
    assert HasExtension("ship.fbw", "fbw") && table[0].fileMatcher.extensions[0] == "fbw";
    assert IsFirstMatch(table, 0, "ship.fbw", regexIsMatch);
    MissesAt(fbx, "fbw", 0);
    MissesAt(fbx, "x", 1);
    MissesAt(fbx, "fx", 2);
    forall i | 0 <= i < |table| && i != 1 && i != 2 && i != 0
      ensures !MatchesAt(table, i, fbx, regexIsMatch)
    {
      var exts := table[i].fileMatcher.extensions;
      forall e | e in exts ensures !HasExtension(fbx, e) {
        MissesAt(fbx, e, 0);
      }
    }
    assert NoMatch(table, fbx, regexIsMatch);
  }
}
