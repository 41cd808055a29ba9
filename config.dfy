/** Configuration and statistics (src/code_assembler/config.py): the
    validation and normalisation `AssemblerConfig` runs after construction,
    the `FileEntry` record and the `CodebaseStats` accumulator. */
module Config {
  import opened Strings

  /** `DEFAULT_EXCLUDE_PATTERNS` (src/code_assembler/constants.py:131-154). */
  const DefaultExcludePatterns: seq<string> := [
    "__pycache__", ".pyc", ".pyo", ".pyd", ".so", ".dll", ".dylib",
    ".egg-info", ".eggs", "dist", "build", ".git", ".svn", ".hg",
    ".venv", "venv", "env", "node_modules", ".idea", ".vscode",
    ".DS_Store", "Thumbs.db"
  ]

  /** The exceptions `__post_init__` raises: the two ValueErrors about empty
      lists, the IndexError of `ext[0]` on an empty extension, and the
      ValueError about the size limit. */
  datatype ConfigError = NoPaths | NoExtensions | EmptyExtension | NonPositiveSize

  // ---------------------------------------------------------------------------
  // Extension classification

  /** Where one entry of `extensions` goes: kept as given, given a leading
      dot, or moved to the exact file names. */
  datatype ExtKind = AsGiven | Dotted | ExactName

  function KindOf(ext: string): ExtKind
    requires ext != ""
  {
    if ext[0] == '.' then AsGiven
    else if '.' in ext then Dotted
    else if IsUpper(ext[0]) then ExactName
    else Dotted
  }

  predicate NoEmpty(exts: seq<string>) {
    forall i :: 0 <= i < |exts| ==> exts[i] != ""
  }

  /** The extension an entry that is not an exact name turns into. */
  function WithDot(ext: string): (r: string)
    requires ext != "" && KindOf(ext) != ExactName
    ensures StartsWith(r, ".")
    ensures r == ext || r == "." + ext
    ensures ext[0] == '.' <==> r == ext
  {
    if ext[0] == '.' then ext else "." + ext
  }

  /** The normalised extensions, in input order. */
  function NormalizedExtensions(exts: seq<string>): (r: seq<string>)
    requires NoEmpty(exts)
    ensures forall i :: 0 <= i < |r| ==> StartsWith(r[i], ".")
  {
    if exts == [] then []
    else
      var ext := exts[|exts| - 1];
      NormalizedExtensions(exts[..|exts| - 1]) + (if KindOf(ext) == ExactName then [] else [WithDot(ext)])
  }

  /** The entries moved to `exact_filenames`, in input order. */
  function ExactNames(exts: seq<string>): (r: seq<string>)
    requires NoEmpty(exts)
    ensures forall i :: 0 <= i < |r| ==> r[i] != "" && IsUpper(r[i][0]) && '.' !in r[i]
  {
    if exts == [] then []
    else
      var ext := exts[|exts| - 1];
      ExactNames(exts[..|exts| - 1]) + (if KindOf(ext) == ExactName then [ext] else [])
  }

  /** Every entry lands in exactly one of the two lists, duplicates kept. */
  lemma {:induction false} ClassifyCounts(exts: seq<string>)
    requires NoEmpty(exts)
    ensures |NormalizedExtensions(exts)| + |ExactNames(exts)| == |exts|
  {
    if exts != [] {
      ClassifyCounts(exts[..|exts| - 1]);
    }
  }

  /** Which list holds a given entry. */
  lemma {:induction false} ClassifyMembers(exts: seq<string>)
    requires NoEmpty(exts)
    ensures forall x :: x in ExactNames(exts) <==> x in exts && KindOf(x) == ExactName
    ensures forall x :: x in exts && KindOf(x) != ExactName ==> WithDot(x) in NormalizedExtensions(exts)
  {
    if exts != [] {
      var init, ext := exts[..|exts| - 1], exts[|exts| - 1];
      assert exts == init + [ext];
      ClassifyMembers(init);
    }
  }

  lemma {:induction false} NormalizedAppend(a: seq<string>, b: seq<string>)
    requires NoEmpty(a) && NoEmpty(b)
    ensures NoEmpty(a + b)
    ensures NormalizedExtensions(a + b) == NormalizedExtensions(a) + NormalizedExtensions(b)
    ensures ExactNames(a + b) == ExactNames(a) + ExactNames(b)
    decreases |b|
  {
    if b != [] {
      var init := b[..|b| - 1];
      assert (a + b)[..|a + b| - 1] == a + init;
      NormalizedAppend(a, init);
    } else {
      assert a + b == a;
    }
  }

  /** Normalisation is a fixed point: the normalised extensions normalise to
      themselves and move nothing to the exact names. */
  lemma {:induction false} NormalizeTwice(exts: seq<string>)
    requires NoEmpty(exts)
    ensures NoEmpty(NormalizedExtensions(exts))
    ensures NormalizedExtensions(NormalizedExtensions(exts)) == NormalizedExtensions(exts)
    ensures ExactNames(NormalizedExtensions(exts)) == []
  {
    if exts != [] {
      var init, ext := exts[..|exts| - 1], exts[|exts| - 1];
      NormalizeTwice(init);
      var n := NormalizedExtensions(init);
      var tail := if KindOf(ext) == ExactName then [] else [WithDot(ext)];
      assert NormalizedExtensions(exts) == n + tail;
      NormalizedAppend(n, tail);
      if tail != [] {
        assert tail[..0] == [];
        assert NormalizedExtensions(tail) == tail;
      }
    }
  }

  /** The position of the first empty entry, where `ext[0]` raises. */
  function FirstEmpty(exts: seq<string>): (k: nat)
    requires !NoEmpty(exts)
    ensures k < |exts| && exts[k] == "" && NoEmpty(exts[..k])
  {
    if exts[0] == "" then 0
    else
      assert !NoEmpty(exts[1..]) by {
        var i :| 0 <= i < |exts| && exts[i] == "";
        assert exts[1..][i - 1] == exts[i];
      }
      var k := FirstEmpty(exts[1..]);
      assert forall i :: 0 <= i < k + 1 ==> exts[i] == (if i == 0 then exts[0] else exts[1..][..k][i - 1]);
      k + 1
  }

  // ---------------------------------------------------------------------------
  // AssemblerConfig

  class AssemblerConfig {
    var paths: seq<string>
    var extensions: seq<string>
    var excludePatterns: seq<string>
    var maxFileSizeMb: real
    var useDefaultExcludes: bool
    var exactFilenames: seq<string>

    /** The dataclass initialiser: every field as given. */
    constructor (paths: seq<string>, extensions: seq<string>, excludePatterns: seq<string>,
                 maxFileSizeMb: real, useDefaultExcludes: bool, exactFilenames: seq<string>)
      ensures this.paths == paths && this.extensions == extensions
      ensures this.excludePatterns == excludePatterns && this.maxFileSizeMb == maxFileSizeMb
      ensures this.useDefaultExcludes == useDefaultExcludes && this.exactFilenames == exactFilenames
    {
      this.paths := paths;
      this.extensions := extensions;
      this.excludePatterns := excludePatterns;
      this.maxFileSizeMb := maxFileSizeMb;
      this.useDefaultExcludes := useDefaultExcludes;
      this.exactFilenames := exactFilenames;
    }

    /** `__post_init__`: the checks in source order, the split of the
        extensions, the default excludes and the size check. */
    method PostInit() returns (error: Option<ConfigError>)
      modifies this`extensions, this`exactFilenames, this`excludePatterns
      ensures old(paths) == [] ==> error == Some(NoPaths) && unchanged(this)
      ensures old(paths) != [] && old(extensions) == [] ==> error == Some(NoExtensions) && unchanged(this)
      ensures old(paths) != [] && !NoEmpty(old(extensions)) ==>
        && error == Some(EmptyExtension)
        && extensions == old(extensions)
        && exactFilenames == old(exactFilenames) + ExactNames(old(extensions)[..FirstEmpty(old(extensions))])
        && excludePatterns == old(excludePatterns)
      ensures old(paths) != [] && old(extensions) != [] && NoEmpty(old(extensions)) ==>
        && extensions == NormalizedExtensions(old(extensions))
        && exactFilenames == old(exactFilenames) + ExactNames(old(extensions))
        && excludePatterns == (if useDefaultExcludes then Dedup(old(excludePatterns) + DefaultExcludePatterns)
                               else old(excludePatterns))
        && (error == None <==> maxFileSizeMb > 0.0)
        && (error != None ==> error == Some(NonPositiveSize))
    {
      if |paths| == 0 {
        return Some(NoPaths);
      }
      if |extensions| == 0 {
        return Some(NoExtensions);
      }
      var normalized := [];
      var i := 0;
      while i < |extensions|
        invariant 0 <= i <= |extensions|
        invariant extensions == old(extensions) && excludePatterns == old(excludePatterns)
        invariant NoEmpty(extensions[..i])
        invariant normalized == NormalizedExtensions(extensions[..i])
        invariant exactFilenames == old(exactFilenames) + ExactNames(extensions[..i])
      {
        var ext := extensions[i];
        assert extensions[..i + 1] == extensions[..i] + [ext];
        if ext == "" {
          assert !NoEmpty(extensions) && FirstEmpty(extensions) == i by {
            FirstEmptyAt(extensions, i);
          }
          return Some(EmptyExtension);
        }
        assert extensions[..i + 1][..i] == extensions[..i];
        if ext[0] == '.' {
          normalized := normalized + [ext];
        } else if '.' in ext {
          normalized := normalized + ["." + ext];
        } else if IsUpper(ext[0]) {
          exactFilenames := exactFilenames + [ext];
        } else {
          normalized := normalized + ["." + ext];
        }
        i := i + 1;
      }
      assert extensions[..i] == extensions;
      extensions := normalized;
      if useDefaultExcludes {
        excludePatterns := Dedup(excludePatterns + DefaultExcludePatterns);
      }
      if maxFileSizeMb <= 0.0 {
        return Some(NonPositiveSize);
      }
      return None;
    }
  }

  lemma FirstEmptyAt(exts: seq<string>, i: nat)
    requires i < |exts| && exts[i] == "" && NoEmpty(exts[..i])
    ensures !NoEmpty(exts) && FirstEmpty(exts) == i
  {
    var k := FirstEmpty(exts);
    forall j | 0 <= j < i ensures exts[j] != "" {
      assert exts[..i][j] == exts[j];
    }
    forall j | 0 <= j < k ensures exts[j] != "" {
      assert exts[..k][j] == exts[j];
    }
  }

  /** The default excludes, once each, joined to the user's patterns: the
      union of the two lists without repetition. */
  lemma DefaultExcludesUnion(user: seq<string>)
    ensures Distinct(Dedup(user + DefaultExcludePatterns))
    ensures forall p :: p in Dedup(user + DefaultExcludePatterns) <==> p in user || p in DefaultExcludePatterns
  {
  }

  // ---------------------------------------------------------------------------
  // FileEntry

  /** A table-of-contents entry; `kind` is `"file"` or `"dir"`. */
  datatype FileEntry = FileEntry(path: string, kind: string, depth: int, sizeBytes: int, lineCount: int)
  {
    /** `name`: the last part of the path. */
    function Name(): (r: string)
      ensures '/' !in r
      ensures r == "" <==> Segments(path) == []
      ensures Segments(path) != [] ==> r == Segments(path)[|Segments(path)| - 1]
    {
      Strings.Name(path)
    }

    predicate IsFile()
      ensures IsFile() ==> !IsDirectory()
    {
      kind == "file"
    }

    predicate IsDirectory() {
      kind == "dir"
    }
  }

  // ---------------------------------------------------------------------------
  // CodebaseStats

  /** The sum of the counts of `keys` in `m`. */
  function CountTotal<K(==,!new)>(keys: seq<K>, m: map<K, nat>): nat
    requires forall k :: k in keys ==> k in m
  {
    if keys == [] then 0 else m[keys[0]] + CountTotal(keys[1..], m)
  }

  /** Changing the count of a key not listed changes nothing. */
  lemma {:induction false} CountTotalOther<K(!new)>(keys: seq<K>, m: map<K, nat>, e: K, v: nat)
    requires forall k :: k in keys ==> k in m
    requires e !in keys
    ensures CountTotal(keys, m[e := v]) == CountTotal(keys, m)
  {
    if keys != [] {
      CountTotalOther(keys[1..], m, e, v);
    }
  }

  /** Appending a key adds its count. */
  lemma {:induction false} CountTotalAppend<K(!new)>(keys: seq<K>, m: map<K, nat>, e: K)
    requires forall k :: k in keys ==> k in m
    requires e in m
    ensures CountTotal(keys + [e], m) == CountTotal(keys, m) + m[e]
  {
    if keys != [] {
      assert (keys + [e])[1..] == keys[1..] + [e];
      CountTotalAppend(keys[1..], m, e);
    }
  }

  /** Raising the count of a key listed once raises the total by one. */
  lemma {:induction false} CountTotalBump<K(!new)>(keys: seq<K>, m: map<K, nat>, e: K)
    requires forall k :: k in keys ==> k in m
    requires Distinct(keys) && e in keys
    ensures CountTotal(keys, m[e := m[e] + 1]) == CountTotal(keys, m) + 1
  {
    if keys[0] == e {
      assert e !in keys[1..] by {
        forall j | 0 <= j < |keys| - 1 ensures keys[1..][j] != e {
          assert keys[1..][j] == keys[j + 1];
        }
      }
      CountTotalOther(keys[1..], m, e, m[e] + 1);
    } else {
      assert Distinct(keys[1..]) by {
        forall i, j | 0 <= i < j < |keys| - 1 ensures keys[1..][i] != keys[1..][j] {
          assert keys[1..][i] == keys[i + 1] && keys[1..][j] == keys[j + 1];
        }
      }
      CountTotalBump(keys[1..], m, e);
    }
  }

  /** Dictionary items in key order: each key with its count (zero for a key
      the map lacks, which a valid `CodebaseStats` never has). */
  function ItemsOf<K(==)>(keys: seq<K>, m: map<K, nat>): (r: seq<(K, nat)>)
    ensures |r| == |keys|
    ensures forall i :: 0 <= i < |r| ==> r[i].0 == keys[i]
  {
    seq(|keys|, i requires 0 <= i < |keys| => (keys[i], if keys[i] in m then m[keys[i]] else 0))
  }

  /** The sum of the counts of a list of items. */
  function CountSum<K>(items: seq<(K, nat)>): nat {
    if items == [] then 0 else items[0].1 + CountSum(items[1..])
  }

  /** The items of listed keys add up to their total. */
  lemma {:induction false} ItemsSum<K(!new)>(keys: seq<K>, m: map<K, nat>)
    ensures (forall k :: k in keys ==> k in m) ==> CountSum(ItemsOf(keys, m)) == CountTotal(keys, m)
  {
    if keys != [] && forall k :: k in keys ==> k in m {
      ItemsSum(keys[1..], m);
      assert ItemsOf(keys, m)[1..] == ItemsOf(keys[1..], m);
    }
  }

  /** `update_largest_file` as a step: the new file replaces the current
      one only when strictly larger. */
  function LargestStep(largest: Option<(string, int)>, path: string, size: int): (r: Option<(string, int)>)
    ensures r.Some?
    ensures largest.Some? && r.value.1 == largest.value.1 ==> r == largest
  {
    if largest.None? || size > largest.value.1 then Some((path, size)) else largest
  }

  /** The result of reporting each file of `files` in turn. */
  function LargestOf(files: seq<(string, int)>): Option<(string, int)> {
    if files == [] then None
    else
      var last := files[|files| - 1];
      LargestStep(LargestOf(files[..|files| - 1]), last.0, last.1)
  }

  /** After a run of updates the largest file is the first of maximal size. */
  lemma {:induction false} LargestIsFirstMaximum(files: seq<(string, int)>) returns (k: nat)
    requires files != []
    ensures k < |files| && LargestOf(files) == Some(files[k])
    ensures forall j :: 0 <= j < |files| ==> files[j].1 <= files[k].1
    ensures forall j :: 0 <= j < k ==> files[j].1 < files[k].1
  {
    var n := |files| - 1;
    var init := files[..n];
    if init == [] {
      return 0;
    }
    var k0 := LargestIsFirstMaximum(init);
    assert init[k0] == files[k0];
    if files[n].1 > files[k0].1 {
      k := n;
      forall j | 0 <= j < n ensures files[j].1 < files[n].1 {
        assert init[j] == files[j];
      }
    } else {
      k := k0;
      forall j | 0 <= j < |files| ensures files[j].1 <= files[k].1 {
        if j < n { assert init[j] == files[j]; }
      }
      forall j | 0 <= j < k ensures files[j].1 < files[k].1 {
        assert init[j] == files[j];
      }
    }
  }

  /** The entry `skip_file` records: the path, then the reason in brackets
      when there is one. */
  function SkipEntry(path: string, reason: string): (r: string)
    ensures StartsWith(r, path)
    ensures reason == "" <==> r == path
    ensures reason != "" ==> |r| == |path| + |reason| + 3 && r[|path| + 2..|r| - 1] == reason
    ensures reason != "" ==> r[|path|..|path| + 2] == " (" && r[|r| - 1] == ')'
  {
    var r := path + (if reason == "" then "" else " (" + reason + ")");
    assert r[..|path|] == path;
    r
  }

  class CodebaseStats {
    var totalFiles: int
    var totalLines: int
    var totalChars: int
    var sourceChars: int
    var estimatedTokens: int
    /** `files_by_ext`, with its keys in insertion order in `extOrder`. */
    var filesByExt: map<string, nat>
    var extOrder: seq<string>
    var largestFile: Option<(string, int)>
    var maxDepth: int
    var skippedFiles: seq<string>

    /** `files_by_ext.items()`, in insertion order; their counts add up to
        the number of files. */
    function Items(): (r: seq<(string, nat)>)
      reads this
      ensures |r| == |extOrder|
      ensures Valid() ==> CountSum(r) == totalFiles
      ensures Valid() ==> forall i :: 0 <= i < |r| ==> r[i].0 in filesByExt && r[i].1 == filesByExt[r[i].0]
    {
      ItemsSum(extOrder, filesByExt);
      ItemsOf(extOrder, filesByExt)
    }

    /** The per-extension counts add up to the number of files. */
    ghost predicate Valid()
      reads this
    {
      && Distinct(extOrder)
      && (forall e :: e in filesByExt <==> e in extOrder)
      && totalFiles == CountTotal(extOrder, filesByExt)
    }

    /** `CodebaseStats()`: every counter zero, nothing recorded. */
    constructor ()
      ensures Valid()
      ensures totalFiles == 0 && totalLines == 0 && totalChars == 0 && sourceChars == 0
      ensures estimatedTokens == 0 && maxDepth == 0
      ensures filesByExt == map[] && extOrder == [] && largestFile == None && skippedFiles == []
    {
      totalFiles := 0;
      totalLines := 0;
      totalChars := 0;
      sourceChars := 0;
      estimatedTokens := 0;
      filesByExt := map[];
      extOrder := [];
      largestFile := None;
      maxDepth := 0;
      skippedFiles := [];
    }

    /** `update_largest_file`. */
    method UpdateLargestFile(path: string, size: int)
      modifies this`largestFile
      ensures largestFile == LargestStep(old(largestFile), path, size)
    {
      if largestFile.None? || size > largestFile.value.1 {
        largestFile := Some((path, size));
      }
    }

    /** `add_file`: one more file, its lines and characters, and one more
        for its extension; the counts keep adding up. */
    method AddFile(extension: string, lines: int, size: int)
      modifies this`totalFiles, this`totalLines, this`sourceChars, this`filesByExt, this`extOrder
      ensures totalFiles == old(totalFiles) + 1
      ensures totalLines == old(totalLines) + lines
      ensures sourceChars == old(sourceChars) + size
      ensures extension in old(filesByExt) ==>
        filesByExt == old(filesByExt)[extension := old(filesByExt)[extension] + 1] && extOrder == old(extOrder)
      ensures extension !in old(filesByExt) ==>
        filesByExt == old(filesByExt)[extension := 1] && extOrder == old(extOrder) + [extension]
      ensures old(Valid()) ==> Valid()
    {
      ghost var wasValid := Valid();
      totalFiles := totalFiles + 1;
      totalLines := totalLines + lines;
      sourceChars := sourceChars + size;
      if extension !in filesByExt {
        filesByExt := filesByExt[extension := 0];
        extOrder := extOrder + [extension];
        if wasValid {
          CountTotalOther(old(extOrder), old(filesByExt), extension, 0);
          CountTotalAppend(old(extOrder), filesByExt, extension);
          assert Distinct(extOrder) by {
            forall i, j | 0 <= i < j < |extOrder| ensures extOrder[i] != extOrder[j] {
              if j < |extOrder| - 1 {
                assert extOrder[i] == old(extOrder)[i] && extOrder[j] == old(extOrder)[j];
              } else {
                assert extOrder[i] in old(extOrder);
              }
            }
          }
        }
      }
      if wasValid {
        CountTotalBump(extOrder, filesByExt, extension);
      }
      filesByExt := filesByExt[extension := filesByExt[extension] + 1];
    }

    /** `skip_file`: one entry appended, nothing else touched. */
    method SkipFile(path: string, reason: string)
      modifies this`skippedFiles
      ensures skippedFiles == old(skippedFiles) + [SkipEntry(path, reason)]
    {
      skippedFiles := skippedFiles + [SkipEntry(path, reason)];
    }
  }
}
