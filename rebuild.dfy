/** Rebuilding a project tree from a Markdown snapshot
    (src/code_assembler/rebuilder.py).

    The file system is reduced to what `rebuild` touches: the Markdown file
    (missing, unreadable, or its text), the files written under the
    output directory as a map from relative path to text, whether the output
    directory has been made, and the writes that raise, as a map from
    relative path to the message of the exception.  A file on disk is named
    by the path `output_dir / rel_path` gives it: the key's parts, without
    empty parts and `.` (`DiskPath`).  The JSON decoder is a parameter, as
    in the delta engine. */
module Rebuild {
  import opened Strings
  import opened Metadata
  import opened Blocks

  const NoMetadata := "No valid metadata found in the Markdown file. Rebuild impossible."
  const Truncated := "[TRUNCATED]"

  function NotFound(p: string): string { "Content not found for: " + p }
  function SecuritySkip(p: string): string { "Security skip (invalid path): " + p }
  function WriteFailed(p: string, e: string): string { "Failed to write " + p + ": " + e }
  /** `str(e)` of the `IsADirectoryError` that writing to the output
      directory itself raises. */
  function IsDirectory(outDir: string): string { "[Errno 21] Is a directory: '" + outDir + "'" }
  function TruncationWarning(p: string): string { "Warning: " + p + " was truncated in the source MD." }

  // ---------------------------------------------------------------------------
  // Reading the metadata

  /** The Markdown file as `_extract_metadata` meets it: `exists()` is
      false, or the file exists but `read_text` raises (a directory, text
      that is not UTF-8), or its text. */
  datatype MdFile = Missing | Unreadable | Text(doc: string)

  /** `_extract_metadata` when it returns: the decoded JSON value, or None
      when the file is missing, has no metadata block, or its JSON does not
      decode.  An unreadable file makes it raise instead (see `RebuildOf`). */
  function MetadataRead(mdFile: MdFile, decode: Decoder): Option<Json> {
    if !mdFile.Text? then None
    else
      match FindPayload(mdFile.doc)
      case None => None
      case Some(payload) => decode(payload)
  }

  lemma MetadataReadOf(doc: string, decode: Decoder)
    ensures MetadataRead(Text(doc), decode) ==
      if FindPayload(doc).None? then None else decode(FindPayload(doc).value)
  {
  }

  /** The paths `for rel_path in files_to_rebuild` visits, and whether the
      iteration raises before it ends. */
  datatype KeyList = KeyList(keys: seq<string>, raises: bool)

  /** Iterating a JSON list: the leading run of strings; the first item that
      is not a string makes `re.escape` raise. */
  function StringItems(items: seq<Json>): (r: KeyList)
    ensures |r.keys| <= |items|
    ensures forall i :: 0 <= i < |r.keys| ==> items[i] == JString(r.keys[i])
    ensures r.raises <==> |r.keys| < |items|
    ensures r.raises ==> !items[|r.keys|].JString?
  {
    if items == [] then KeyList([], false)
    else if !items[0].JString? then KeyList([], true)
    else
      var rest := StringItems(items[1..]);
      KeyList([items[0].s] + rest.keys, rest.raises)
  }

  /** `metadata.get("files", {})` of a metadata object, as iterated: the keys
      of an object in insertion order, the strings of a list, the characters
      of a string; anything else is not iterable. */
  function KeysOf(members: seq<(string, Json)>): KeyList
  {
    match Lookup(members, "files")
    case None => KeyList([], false)
    case Some(JObject(m)) => KeyList(DictKeys(m), false)
    case Some(JArray(items)) => StringItems(items)
    case Some(JString(s)) => KeyList(seq(|s|, i requires 0 <= i < |s| => [s[i]]), false)
    case Some(_) => KeyList([], true)
  }

  lemma KeysOfObject(members: seq<(string, Json)>, listed: seq<(string, Json)>)
    requires Lookup(members, "files") == Some(JObject(listed))
    ensures KeysOf(members) == KeyList(DictKeys(listed), false)
  {
  }

  // ---------------------------------------------------------------------------
  // One key at a time

  /** `_extract_file_content` as a function of the Markdown text and the
      path; `Blocks.FindBlock` is the one the snapshot format calls for. */
  type Finder = (string, string) -> Option<string>

  /** What the loop consults besides the key: the Markdown text, the block
      finder, the dry-run flag and the writes that fail. */
  datatype Env = Env(doc: string, find: Finder, dryRun: bool, outDir: string, failures: map<string, string>)

  /** The content captured for `p`. */
  function Content(env: Env, p: string): Option<string> {
    env.find(env.doc, p)
  }

  /** The path-traversal guard. */
  predicate Unsafe(p: string) {
    Contains(p, "..") || StartsWith(p, "/") || StartsWith(p, "\\")
  }

  /** The file `self.output_dir / p` names, relative to the output
      directory: pathlib drops empty parts, `.` and a trailing `/`, so `a`,
      `./a`, `a/` and `.//a` name one file, and `""` and `.` name the
      directory itself. */
  function DiskPath(p: string): string {
    Join(Segments(p), "/")
  }

  /** The key's content is found, its path is safe, and it is counted: in
      a dry run always, otherwise when the write succeeds, which it does not
      for the output directory itself. */
  predicate Creates(env: Env, p: string) {
    Content(env, p).Some? && !Unsafe(p) && (env.dryRun || (p !in env.failures && DiskPath(p) != ""))
  }

  /** The key's content is written to disk. */
  predicate Writes(env: Env, p: string) {
    Creates(env, p) && !env.dryRun
  }

  /** The written content was cut short when the snapshot was made. */
  predicate Warns(env: Env, p: string) {
    Writes(env, p) && Contains(Content(env, p).value, Truncated)
  }

  datatype Progress = Progress(tree: map<string, string>, created: nat, errors: seq<string>)

  /** The body of the loop for one key: one more file counted or one
      message, plus a warning when the written content was truncated; the
      tree changes only by writing `p`'s content to the file it names. */
  function Step(st: Progress, env: Env, p: string): (r: Progress)
    ensures r.created == st.created + if Creates(env, p) then 1 else 0
    ensures |r.errors| == |st.errors| + (if Creates(env, p) then 0 else 1) + (if Warns(env, p) then 1 else 0)
    ensures r.tree == if Writes(env, p) then st.tree[DiskPath(p) := Content(env, p).value] else st.tree
    // a key naming the output directory itself fails as `write_text` on a directory does
    ensures Content(env, p).Some? && !Unsafe(p) && !env.dryRun && p !in env.failures && DiskPath(p) == "" ==>
      r.errors == st.errors + [WriteFailed(p, IsDirectory(env.outDir))]
  {
    match Content(env, p)
    case None => st.(errors := st.errors + [NotFound(p)])
    case Some(content) =>
      if Unsafe(p) then st.(errors := st.errors + [SecuritySkip(p)])
      else if env.dryRun then st.(created := st.created + 1)
      else if p in env.failures then st.(errors := st.errors + [WriteFailed(p, env.failures[p])])
      else if DiskPath(p) == "" then st.(errors := st.errors + [WriteFailed(p, IsDirectory(env.outDir))])
      else
        Progress(st.tree[DiskPath(p) := content], st.created + 1,
                 st.errors + if Contains(content, Truncated) then [TruncationWarning(p)] else [])
  }

  /** Whether a key writes the file `q`. */
  predicate WritesTo(env: Env, p: string, q: string) {
    Writes(env, p) && DiskPath(p) == q
  }

  /** The content the file `q` is left holding by the keys: that of the
      last key that writes it, and None when no key does. */
  function Written(keys: seq<string>, env: Env, q: string): Option<string> {
    if keys == [] then None
    else if WritesTo(env, keys[|keys| - 1], q) then Content(env, keys[|keys| - 1])
    else Written(keys[..|keys| - 1], env, q)
  }

  /** `Written` is None exactly when no key writes `q`, and otherwise the
      block of a key that writes `q` with no later key writing it. */
  lemma WrittenMeaning(keys: seq<string>, env: Env, q: string)
    ensures Written(keys, env, q).None? <==> forall i :: 0 <= i < |keys| ==> !WritesTo(env, keys[i], q)
    ensures Written(keys, env, q).Some? ==>
      exists i :: 0 <= i < |keys| && WritesTo(env, keys[i], q) && Content(env, keys[i]) == Written(keys, env, q)
        && forall j :: i < j < |keys| ==> !WritesTo(env, keys[j], q)
  {
    WrittenNone(keys, env, q);
    if Written(keys, env, q).Some? {
      WrittenLast(keys, env, q);
    }
  }

  lemma {:induction false} WrittenNone(keys: seq<string>, env: Env, q: string)
    ensures Written(keys, env, q).None? <==> forall i :: 0 <= i < |keys| ==> !WritesTo(env, keys[i], q)
  {
    if keys != [] {
      var init, last := keys[..|keys| - 1], keys[|keys| - 1];
      WrittenNone(init, env, q);
      assert forall i :: 0 <= i < |init| ==> init[i] == keys[i];
    }
  }

  lemma {:induction false} WrittenLast(keys: seq<string>, env: Env, q: string)
    requires Written(keys, env, q).Some?
    ensures exists i :: (0 <= i < |keys| && WritesTo(env, keys[i], q) && Content(env, keys[i]) == Written(keys, env, q)
      && forall j :: i < j < |keys| ==> !WritesTo(env, keys[j], q))
  {
    var n := |keys| - 1;
    if WritesTo(env, keys[n], q) {
      assert Content(env, keys[n]) == Written(keys, env, q);
    } else {
      var init := keys[..n];
      assert Written(keys, env, q) == Written(init, env, q);
      WrittenLast(init, env, q);
      var i :| 0 <= i < |init| && WritesTo(env, init[i], q) && Content(env, init[i]) == Written(init, env, q)
        && forall j :: i < j < |init| ==> !WritesTo(env, init[j], q);
      assert keys[i] == init[i];
      assert forall j :: i < j < |keys| ==> !WritesTo(env, keys[j], q) by {
        assert forall j :: i < j < n ==> keys[j] == init[j];
      }
    }
  }

  /** The loop over `keys`, from the tree `tree0`.  The files on disk after
      it: a file is there when it was there before or one of the keys wrote
      it, and a written file holds the block of the last key that wrote it;
      an unsafe path, a dry run or a failed write adds nothing. */
  function Run(keys: seq<string>, env: Env, tree0: map<string, string>): (r: Progress)
    ensures r.created <= |keys|
    ensures forall q :: q in r.tree <==> q in tree0 || Written(keys, env, q).Some?
    ensures forall q :: q in r.tree ==>
      r.tree[q] == if Written(keys, env, q).Some? then Written(keys, env, q).value else tree0[q]
  {
    if keys == [] then Progress(tree0, 0, [])
    else
      Step(Run(keys[..|keys| - 1], env, tree0), env, keys[|keys| - 1])
  }

  lemma RunStep(keys: seq<string>, p: string, env: Env, tree0: map<string, string>)
    ensures Run(keys + [p], env, tree0) == Step(Run(keys, env, tree0), env, p)
  {
    assert (keys + [p])[..|keys|] == keys;
  }

  /** The keys that are counted, in order. */
  function Accepted(keys: seq<string>, env: Env): (r: seq<string>)
    ensures |r| <= |keys|
    ensures forall p :: p in r <==> p in keys && Creates(env, p)
  {
    if keys == [] then []
    else
      var last := keys[|keys| - 1];
      Accepted(keys[..|keys| - 1], env) + if Creates(env, last) then [last] else []
  }

  /** The keys that draw a truncation warning, in order. */
  function Warned(keys: seq<string>, env: Env): (r: seq<string>)
    ensures |r| <= |Accepted(keys, env)|
    ensures forall p :: p in r <==> p in keys && Warns(env, p)
  {
    if keys == [] then []
    else
      var last := keys[|keys| - 1];
      Warned(keys[..|keys| - 1], env) + if Warns(env, last) then [last] else []
  }

  /** A dry run leaves the files as they were. */
  lemma {:induction false} DryRunKeepsTree(keys: seq<string>, env: Env, tree0: map<string, string>)
    requires env.dryRun
    ensures Run(keys, env, tree0).tree == tree0
  {
    if keys != [] {
      DryRunKeepsTree(keys[..|keys| - 1], env, tree0);
    }
  }

  /** Every key is either counted or reported: the count is the number of
      accepted keys, and there is one message per rejected key plus one
      warning per truncated file written. */
  lemma {:induction false} RunCounts(keys: seq<string>, env: Env, tree0: map<string, string>)
    ensures Run(keys, env, tree0).created == |Accepted(keys, env)|
    ensures |Run(keys, env, tree0).errors| == |keys| - |Accepted(keys, env)| + |Warned(keys, env)|
    ensures Run(keys, env, tree0).created <= |keys| <= Run(keys, env, tree0).created + |Run(keys, env, tree0).errors|
  {
    if keys != [] {
      var init, last := keys[..|keys| - 1], keys[|keys| - 1];
      RunCounts(init, env, tree0);
    }
  }

  /** When every key is accepted, all of them are. */
  lemma {:induction false} AllAccepted(keys: seq<string>, env: Env)
    requires forall p :: p in keys ==> Creates(env, p)
    ensures Accepted(keys, env) == keys
  {
    if keys != [] {
      assert keys == keys[..|keys| - 1] + [keys[|keys| - 1]];
      AllAccepted(keys[..|keys| - 1], env);
    }
  }

  /** When no key draws a warning, none is drawn. */
  lemma {:induction false} NoneWarned(keys: seq<string>, env: Env)
    requires forall p :: p in keys ==> !Warns(env, p)
    ensures Warned(keys, env) == []
  {
    if keys != [] {
      NoneWarned(keys[..|keys| - 1], env);
    }
  }

  // ---------------------------------------------------------------------------
  // The whole call

  /** What `rebuild` leaves behind.  `raised` means the call ends with an
      exception; the files written before it stay written. */
  datatype Rebuilt = Rebuilt(created: nat, errors: seq<string>, raised: bool,
                             tree: map<string, string>, dirMade: bool)

  /** `rebuild()` on the Markdown file `mdFile`, from the tree `tree0`: an
      unreadable file raises out of `_extract_metadata` before anything is
      made. */
  function RebuildOf(mdFile: MdFile, decode: Decoder, find: Finder, dryRun: bool, outDir: string,
                     failures: map<string, string>, tree0: map<string, string>): (r: Rebuilt)
    ensures mdFile.Unreadable? ==> r == Rebuilt(0, [], true, tree0, false)
    ensures !mdFile.Unreadable? && MetadataRead(mdFile, decode).None? ==>
      r == Rebuilt(0, [NoMetadata], false, tree0, false)
    ensures r.dirMade ==> !dryRun && MetadataRead(mdFile, decode).Some?
  {
    if mdFile.Unreadable? then Rebuilt(0, [], true, tree0, false)
    else
      match MetadataRead(mdFile, decode)
      case None => Rebuilt(0, [NoMetadata], false, tree0, false)
      case Some(data) => RebuildWith(data, mdFile.doc, find, dryRun, outDir, failures, tree0)
  }

  /** The rest of `rebuild` once the metadata `data` is read from `doc`. */
  /** `metadata.get` raises on metadata that is not an object, before the
      output directory is made; otherwise the directory is made unless in a
      dry run, and the call raises exactly when iterating `files` does. */
  function RebuildWith(data: Json, doc: string, find: Finder, dryRun: bool, outDir: string,
                       failures: map<string, string>, tree0: map<string, string>): (r: Rebuilt)
    ensures !data.JObject? ==> r.raised && r.tree == tree0 && !r.dirMade && r.created == 0
    ensures data.JObject? ==> r.dirMade == !dryRun && r.raised == KeysOf(data.members).raises
    ensures data.JObject? ==> r.created <= |KeysOf(data.members).keys|
  {
    if !data.JObject? then Rebuilt(0, [], true, tree0, false)
    else
      var keys := KeysOf(data.members);
      var st := Run(keys.keys, Env(doc, find, dryRun, outDir, failures), tree0);
      Rebuilt(st.created, st.errors, keys.raises, st.tree, !dryRun)
  }

  lemma RebuildOfRead(mdFile: MdFile, decode: Decoder, find: Finder, dryRun: bool, outDir: string,
                      failures: map<string, string>, tree0: map<string, string>)
    requires MetadataRead(mdFile, decode).Some?
    ensures RebuildOf(mdFile, decode, find, dryRun, outDir, failures, tree0)
         == RebuildWith(MetadataRead(mdFile, decode).value, mdFile.doc, find, dryRun, outDir, failures, tree0)
  {
  }

  /** What a rebuild guarantees whatever the snapshot holds: a dry run makes
      no directory and writes no file; every file added or changed is named
      by a safe key and holds the content of that key's block. */
  lemma RebuildGuarantees(mdFile: MdFile, decode: Decoder, find: Finder, dryRun: bool, outDir: string,
                          failures: map<string, string>, tree0: map<string, string>)
    ensures var r := RebuildOf(mdFile, decode, find, dryRun, outDir, failures, tree0);
      dryRun ==> r.tree == tree0 && !r.dirMade
    ensures var r := RebuildOf(mdFile, decode, find, dryRun, outDir, failures, tree0);
      forall q :: q in r.tree && (q !in tree0 || r.tree[q] != tree0[q]) ==>
        && mdFile.Text?
        && exists p :: !Unsafe(p) && DiskPath(p) == q && find(mdFile.doc, p) == Some(r.tree[q])
  {
    var r := RebuildOf(mdFile, decode, find, dryRun, outDir, failures, tree0);
    var data := MetadataRead(mdFile, decode);
    if data.Some? && data.value.JObject? {
      var keys := KeysOf(data.value.members).keys;
      var env := Env(mdFile.doc, find, dryRun, outDir, failures);
      if dryRun {
        DryRunKeepsTree(keys, env, tree0);
      }
      forall q | q in r.tree && (q !in tree0 || r.tree[q] != tree0[q])
        ensures exists p :: !Unsafe(p) && DiskPath(p) == q && find(mdFile.doc, p) == Some(r.tree[q])
      {
        var w := Written(keys, env, q);
        WrittenMeaning(keys, env, q);
        var i :| 0 <= i < |keys| && WritesTo(env, keys[i], q) && Content(env, keys[i]) == w
          && forall j :: i < j < |keys| ==> !WritesTo(env, keys[j], q);
        assert find(mdFile.doc, keys[i]) == Some(r.tree[q]);
      }
    }
  }

  /** The paths of the files of a snapshot, in order. */
  function Paths(files: seq<(string, string)>): (r: seq<string>)
    ensures |r| == |files| && forall j :: 0 <= j < |files| ==> r[j] == files[j].0
  {
    seq(|files|, j requires 0 <= j < |files| => files[j].0)
  }

  /** Rebuilding a snapshot the writer produced gives every file back: when
      the metadata lists exactly the files' paths, each block's header is the
      first to name its path, no content holds a closing fence, and every
      path is safe and writable, each file is written with its own content,
      all are counted, and no message is produced unless a file was
      truncated. */
  lemma RebuildsSnapshot(keys: seq<string>, files: seq<(string, string)>, json: string,
                         decode: Decoder, members: seq<(string, Json)>, listed: seq<(string, Json)>,
                         outDir: string, failures: map<string, string>, tree0: map<string, string>)
    requires Embeddable(json) && !Contains(Preamble(keys) + BlocksText(files), Marker)
    requires decode(json) == Some(JObject(members)) && Lookup(members, "files") == Some(JObject(listed))
    requires DictKeys(listed) == Paths(files)
    requires forall j :: 0 <= j < |files| ==>
      var pre := Preamble(keys) + BlocksText(files[..j]);
      Find(pre + Header(files[j].0), Header(files[j].0), 0) == Some(|pre|)
    requires forall j :: 0 <= j < |files| ==>
      && !Contains(files[j].1, Fence) && !Unsafe(files[j].0)
      && files[j].0 !in failures && DiskPath(files[j].0) != ""
    requires SeparateFiles(files)
    ensures var r := RebuildOf(Text(Document(keys, files, json)), decode, FindBlock, false, outDir, failures, tree0);
      && r.created == |files| && !r.raised && r.dirMade
      && (forall j :: 0 <= j < |files| ==>
            DiskPath(files[j].0) in r.tree && r.tree[DiskPath(files[j].0)] == files[j].1)
      && ((forall j :: 0 <= j < |files| ==> !Contains(files[j].1, Truncated)) ==> r.errors == [])
  {
    var doc := Document(keys, files, json);
    FindPayloadOfBlock(Preamble(keys) + BlocksText(files), json);
    forall j | 0 <= j < |files|
      ensures FindBlock(doc, files[j].0) == Some(files[j].1)
    {
      DocumentBlockFound(keys, files, json, j);
    }
    RebuildsAll(doc, files, FindBlock, decode, members, listed, outDir, failures, tree0);
  }

  /** The same, for any text and finder that read back the metadata and the
      blocks as listed. */
  lemma RebuildsAll(doc: string, files: seq<(string, string)>, find: Finder,
                    decode: Decoder, members: seq<(string, Json)>, listed: seq<(string, Json)>,
                    outDir: string, failures: map<string, string>, tree0: map<string, string>)
    requires MetadataRead(Text(doc), decode) == Some(JObject(members))
    requires Lookup(members, "files") == Some(JObject(listed)) && DictKeys(listed) == Paths(files)
    requires forall j :: 0 <= j < |files| ==>
      && find(doc, files[j].0) == Some(files[j].1) && !Unsafe(files[j].0)
      && files[j].0 !in failures && DiskPath(files[j].0) != ""
    requires SeparateFiles(files)
    ensures var r := RebuildOf(Text(doc), decode, find, false, outDir, failures, tree0);
      && r.created == |files| && !r.raised && r.dirMade
      && (forall j :: 0 <= j < |files| ==>
            DiskPath(files[j].0) in r.tree && r.tree[DiskPath(files[j].0)] == files[j].1)
      && ((forall j :: 0 <= j < |files| ==> !Contains(files[j].1, Truncated)) ==> r.errors == [])
  {
    var env := Env(doc, find, false, outDir, failures);
    RebuildOfRead(Text(doc), decode, find, false, outDir, failures, tree0);
    KeysOfObject(members, listed);
    RunWritesAll(files, env, tree0);
    RunCountsAll(files, env, tree0);
    if forall j :: 0 <= j < |files| ==> !Contains(files[j].1, Truncated) {
      RunQuietAll(files, env, tree0);
    }
  }

  /** Every block of `files` is found, its path is safe and its write
      succeeds. */
  ghost predicate AllWritable(files: seq<(string, string)>, env: Env) {
    forall j :: 0 <= j < |files| ==>
      && Content(env, files[j].0) == Some(files[j].1) && !Unsafe(files[j].0)
      && files[j].0 !in env.failures && DiskPath(files[j].0) != ""
  }

  /** No two paths of `files` name the same file on disk. */
  predicate SeparateFiles(files: seq<(string, string)>) {
    forall i, j :: 0 <= i < j < |files| ==> DiskPath(files[i].0) != DiskPath(files[j].0)
  }

  lemma PathsWritten(files: seq<(string, string)>, env: Env)
    requires !env.dryRun && AllWritable(files, env)
    ensures forall p :: p in Paths(files) ==> Writes(env, p)
  {
    forall p | p in Paths(files)
      ensures Writes(env, p)
    {
      var j :| 0 <= j < |files| && Paths(files)[j] == p;
    }
  }

  /** The loop over the paths of `files` when all of them are writable and
      name different files: every file holds its content afterwards. */
  lemma RunWritesAll(files: seq<(string, string)>, env: Env, tree0: map<string, string>)
    requires !env.dryRun && AllWritable(files, env) && SeparateFiles(files)
    ensures var t := Run(Paths(files), env, tree0).tree;
      forall j :: 0 <= j < |files| ==> DiskPath(files[j].0) in t && t[DiskPath(files[j].0)] == files[j].1
  {
    var paths := Paths(files);
    PathsWritten(files, env);
    forall j | 0 <= j < |files|
      ensures Written(paths, env, DiskPath(files[j].0)) == Some(files[j].1)
    {
      var q := DiskPath(files[j].0);
      assert paths[j] == files[j].0 && paths[j] in paths && WritesTo(env, paths[j], q);
      var w := Written(paths, env, q);
      WrittenMeaning(paths, env, q);
      var i :| 0 <= i < |paths| && WritesTo(env, paths[i], q) && Content(env, paths[i]) == w
        && forall k :: i < k < |paths| ==> !WritesTo(env, paths[k], q);
      assert i == j;
    }
  }

  /** Two keys that name the same file: the later one's block is what the
      file holds (`a` and then `./a` leave `a` holding the block of `./a`). */
  lemma LaterAliasWins(p1: string, p2: string, env: Env, tree0: map<string, string>)
    requires DiskPath(p1) == DiskPath(p2) && Writes(env, p1) && Writes(env, p2)
    ensures var t := Run([p1, p2], env, tree0).tree;
      DiskPath(p1) in t && t[DiskPath(p1)] == Content(env, p2).value
      && t.Keys == tree0.Keys + {DiskPath(p1)}
  {
    assert [p1, p2][..1] == [p1];
    assert [p1][..0] == [];
  }

  /** ... every one of them is counted ... */
  lemma RunCountsAll(files: seq<(string, string)>, env: Env, tree0: map<string, string>)
    requires !env.dryRun && AllWritable(files, env)
    ensures Run(Paths(files), env, tree0).created == |files|
  {
    PathsWritten(files, env);
    RunCounts(Paths(files), env, tree0);
    AllAccepted(Paths(files), env);
  }

  /** ... and no message is produced unless a file was truncated. */
  lemma RunQuietAll(files: seq<(string, string)>, env: Env, tree0: map<string, string>)
    requires !env.dryRun && AllWritable(files, env)
    requires forall j :: 0 <= j < |files| ==> !Contains(files[j].1, Truncated)
    ensures Run(Paths(files), env, tree0).errors == []
  {
    var paths := Paths(files);
    PathsWritten(files, env);
    forall p | p in paths
      ensures !Warns(env, p)
    {
      var j :| 0 <= j < |files| && paths[j] == p;
    }
    RunCounts(paths, env, tree0);
    AllAccepted(paths, env);
    NoneWarned(paths, env);
  }

  /** `CodebaseRebuilder`: the inputs are constants, `metadata` and
      `md_content` are the fields `_extract_metadata` fills, and `tree` and
      `dirMade` stand for the output directory. */
  class CodebaseRebuilder {
    const mdFile: MdFile
    const decode: Decoder
    const find: Finder
    const dryRun: bool
    const outDir: string
    const failures: map<string, string>
    var metadata: Json
    var mdContent: string
    var tree: map<string, string>
    var dirMade: bool

    constructor(mdFile: MdFile, decode: Decoder, find: Finder, dryRun: bool, outDir: string,
                failures: map<string, string>, tree: map<string, string>)
      ensures this.mdFile == mdFile && this.decode == decode && this.find == find && this.dryRun == dryRun
      ensures this.outDir == outDir && this.failures == failures && this.tree == tree
      ensures metadata == JObject([]) && mdContent == "" && !dirMade
    {
      this.mdFile := mdFile;
      this.decode := decode;
      this.find := find;
      this.dryRun := dryRun;
      this.outDir := outDir;
      this.failures := failures;
      this.tree := tree;
      metadata := JObject([]);
      mdContent := "";
      dirMade := false;
    }

    /** `_extract_metadata`: reads the file into `mdContent` when it exists
        and keeps the decoded JSON in `metadata` when there is one; `raised`
        when `read_text` raises on a file that exists. */
    method ExtractMetadata() returns (ok: bool, raised: bool)
      modifies this`metadata, this`mdContent
      ensures raised <==> mdFile.Unreadable?
      ensures ok <==> MetadataRead(mdFile, decode).Some?
      ensures metadata == if ok then MetadataRead(mdFile, decode).value else old(metadata)
      ensures mdContent == if mdFile.Text? then mdFile.doc else old(mdContent)
    {
      if mdFile.Missing? {
        return false, false;
      }
      if mdFile.Unreadable? {
        return false, true;
      }
      raised := false;
      var doc := mdFile.doc;
      mdContent := doc;
      var payload := FindPayload(doc);
      MetadataReadOf(doc, decode);
      if payload.None? {
        return false, false;
      }
      var data := decode(payload.value);
      if data.None? {
        return false, false;
      }
      metadata := data.value;
      return true, false;
    }

    /** `_extract_file_content`: the block under the header of `relPath`. */
    function ExtractFileContent(relPath: string): Option<string>
      reads this
    {
      find(mdContent, relPath)
    }

    /** `rebuild`: returns the count of files created and the messages, and
        leaves the output directory as `RebuildOf` says. */
    method Rebuild() returns (created: nat, errors: seq<string>, raised: bool)
      modifies this
      ensures var r := RebuildOf(mdFile, decode, find, dryRun, outDir, failures, old(tree));
        created == r.created && errors == r.errors && raised == r.raised
        && tree == r.tree && dirMade == (old(dirMade) || r.dirMade)
      ensures metadata == if MetadataRead(mdFile, decode).Some? then MetadataRead(mdFile, decode).value else old(metadata)
      ensures mdContent == if mdFile.Text? then mdFile.doc else old(mdContent)
    {
      var ok, failed := ExtractMetadata();
      if failed {
        return 0, [], true;
      }
      if !ok {
        return 0, [NoMetadata], false;
      }
      RebuildOfRead(mdFile, decode, find, dryRun, outDir, failures, old(tree));
      if !metadata.JObject? {
        assert RebuildWith(metadata, mdContent, find, dryRun, outDir, failures, tree) == Rebuilt(0, [], true, tree, false);
        return 0, [], true;
      }
      var keys := KeysOf(metadata.members);
      if !dryRun {
        dirMade := true;
      }
      created, errors := RebuildFiles(keys.keys);
      raised := keys.raises;
    }

    /** One turn of the loop of `rebuild`, for the key `p`. */
    method RebuildFile(p: string, created0: nat, errors0: seq<string>) returns (created: nat, errors: seq<string>)
      modifies this`tree
      ensures var r := Step(Progress(old(tree), created0, errors0), Env(mdContent, find, dryRun, outDir, failures), p);
        tree == r.tree && created == r.created && errors == r.errors
    {
      created, errors := created0, errors0;
      var content := ExtractFileContent(p);
      if content.None? {
        errors := errors + [NotFound(p)];
      } else if Unsafe(p) {
        errors := errors + [SecuritySkip(p)];
      } else if dryRun {
        created := created + 1;
      } else if p in failures {
        errors := errors + [WriteFailed(p, failures[p])];
      } else if DiskPath(p) == "" {
        errors := errors + [WriteFailed(p, IsDirectory(outDir))];
      } else {
        tree := tree[DiskPath(p) := content.value];
        if Contains(content.value, Truncated) {
          errors := errors + [TruncationWarning(p)];
        }
        created := created + 1;
      }
    }

    /** The loop of `rebuild` over the keys, on the text already read. */
    method RebuildFiles(keys: seq<string>) returns (created: nat, errors: seq<string>)
      modifies this`tree
      ensures var r := Run(keys, Env(mdContent, find, dryRun, outDir, failures), old(tree));
        tree == r.tree && created == r.created && errors == r.errors
    {
      ghost var env := Env(mdContent, find, dryRun, outDir, failures);
      ghost var tree0 := tree;
      created, errors := 0, [];
      var i := 0;
      while i < |keys|
        invariant 0 <= i <= |keys|
        invariant Run(keys[..i], env, tree0) == Progress(tree, created, errors)
      {
        assert keys[..i + 1] == keys[..i] + [keys[i]];
        RunStep(keys[..i], keys[i], env, tree0);
        created, errors := RebuildFile(keys[i], created, errors);
        i := i + 1;
      }
      assert keys[..i] == keys;
    }
  }
}
