/** The delta engine (src/code_assembler/delta.py:55-132): it sorts the
    current files into modified and added ones, and the snapshot keys nobody
    matched into deleted ones.

    The host is an input: each current path's modification time as
    `datetime.fromtimestamp` gives it (a path missing from the map raises
    OSError), the absolute paths that are regular files (`os.path.isfile`)
    and the working directory, all as lists of path parts. */
module Delta {
  import opened Strings
  import opened Metadata

  /** A local modification time; `replace(second=0, microsecond=0)` keeps
      only its minute. */
  datatype LocalTime = LocalTime(minuteOf: Stamp, second: nat, microsecond: nat)

  datatype Host = Host(mtime: map<string, LocalTime>, regularFiles: set<seq<string>>, cwd: seq<string>)

  datatype DeltaResult = DeltaResult(modified: set<string>, added: set<string>, deleted: set<string>)

  // ---------------------------------------------------------------------------
  // POSIX path arithmetic over parts

  predicate IsAbs(p: string) { StartsWith(p, "/") }

  predicate IsPrefix(a: seq<string>, b: seq<string>) { |a| <= |b| && b[..|a|] == a }

  function CommonPrefix2(a: seq<string>, b: seq<string>): (r: seq<string>)
    ensures IsPrefix(r, a) && IsPrefix(r, b)
    ensures |r| == |a| || |r| == |b| || a[|r|] != b[|r|]
  {
    if |a| == 0 || |b| == 0 || a[0] != b[0] then []
    else [a[0]] + CommonPrefix2(a[1..], b[1..])
  }

  /** The longest list of parts that begins every path of `paths`. */
  function CommonPrefix(paths: seq<seq<string>>): (r: seq<string>)
    requires |paths| > 0
    ensures forall i :: 0 <= i < |paths| ==> IsPrefix(r, paths[i])
    ensures |r| < |paths[0]| ==> exists i :: 0 <= i < |paths| && Diverges(paths[i], paths[0], |r|)
  {
    if |paths| == 1 then paths[0]
    else
      var rest := CommonPrefix(paths[1..]);
      var r := CommonPrefix2(paths[0], rest);
      assert forall i :: 1 <= i < |paths| ==> IsPrefix(rest, paths[i]) by {
        forall i | 1 <= i < |paths| ensures IsPrefix(rest, paths[i]) {
          assert paths[1..][i - 1] == paths[i];
        }
      }
      assert |r| < |paths[0]| ==> exists i :: 0 <= i < |paths| && Diverges(paths[i], paths[0], |r|) by {
      if |r| < |paths[0]| {
        if |r| == |rest| {
          if |rest| == |paths[1]| {
            assert Diverges(paths[1], paths[0], |r|);
          } else {
            var i :| 0 <= i < |paths[1..]| && Diverges(paths[1..][i], paths[1..][0], |rest|);
            if paths[1][|r|] != paths[0][|r|] {
              assert Diverges(paths[1], paths[0], |r|);
            } else {
              assert Diverges(paths[i + 1], paths[0], |r|);
            }
          }
        } else {
          assert paths[1][|r|] == rest[|r|];
          assert Diverges(paths[1], paths[0], |r|);
        }
      }
      }
      r
  }

  /** `a` ends at position `n`, or differs there from `b`. */
  predicate Diverges(a: seq<string>, b: seq<string>, n: nat)
    requires n < |b|
  {
    n >= |a| || a[n] != b[n]
  }

  /** `os.path.abspath`: a relative path is taken from the working directory. */
  function AbsParts(p: string, cwd: seq<string>): seq<string> {
    if IsAbs(p) then Segments(p) else cwd + Segments(p)
  }

  /** The root `get_delta` measures relative paths from, as absolute parts
      (src/code_assembler/delta.py:74-81): the common path of the current
      files, or its directory when it is itself a file, or the working
      directory when absolute and relative paths are mixed. */
  function CommonRoot(current: seq<string>, host: Host): seq<string>
  {
    if |current| == 0 then host.cwd
    else if (forall i :: 0 <= i < |current| ==> IsAbs(current[i]))
         || (forall i :: 0 <= i < |current| ==> !IsAbs(current[i])) then
      var common := CommonPrefix(seq(|current|, i requires 0 <= i < |current| => Segments(current[i])));
      var abs := if IsAbs(current[0]) then common else host.cwd + common;
      // os.path.isfile(common_root), then os.path.dirname
      if abs in host.regularFiles && |common| > 0 then abs[..|abs| - 1] else abs
    else host.cwd
  }

  function Repeat(s: string, n: nat): (r: seq<string>)
    ensures |r| == n && forall i :: 0 <= i < n ==> r[i] == s
  {
    if n == 0 then [] else [s] + Repeat(s, n - 1)
  }

  /** `os.path.relpath(path, start)` with both given as absolute parts. */
  function RelPath(path: seq<string>, start: seq<string>): string {
    var i := |CommonPrefix2(path, start)|;
    var parts := Repeat("..", |start| - i) + path[i..];
    if parts == [] then "." else Join(parts, "/")
  }

  /** `str(Path(path))`: parts joined, with the root slash kept. */
  function PathString(path: string): string {
    var parts := Segments(path);
    if IsAbs(path) then "/" + Join(parts, "/")
    else if parts == [] then "."
    else Join(parts, "/")
  }

  /** `normalize_key`: forward slashes, lower case, no slash at either end. */
  function NormalizeKey(path: string): (r: string)
    ensures '\\' !in r
    ensures forall i :: 0 <= i < |r| ==> !IsUpper(r[i])
    ensures r == [] || (r[0] != '/' && r[|r| - 1] != '/')
  {
    SlashLowerStrip(PathString(path))
  }

  /** The key a current path is looked up under (src/code_assembler/delta.py:86-90). */
  function RelKey(absPath: string, root: seq<string>, cwd: seq<string>): string {
    if absPath == "" then NormalizeKey(absPath)   // relpath raises ValueError on ""
    else
      var rel := ReplaceChar(RelPath(AbsParts(absPath, cwd), root), '\\', '/');
      if StartsWith(rel, "./") then rel[2..] else rel
  }

  /** Parts as a path is made of: none empty, none `.`, none holding `/`
      (what `Segments` yields, and what `getcwd` returns). */
  predicate ProperParts(ps: seq<string>) {
    forall k :: 0 <= k < |ps| ==> ps[k] != "" && ps[k] != "." && '/' !in ps[k]
  }

  /** The root is a prefix of every current path when the paths are all
      absolute or all relative: `commonpath` is, and so is its directory
      when it names a file. */
  lemma CommonRootPrefix(current: seq<string>, host: Host, i: nat)
    requires i < |current|
    requires (forall j :: 0 <= j < |current| ==> IsAbs(current[j]))
          || (forall j :: 0 <= j < |current| ==> !IsAbs(current[j]))
    ensures IsPrefix(CommonRoot(current, host), AbsParts(current[i], host.cwd))
  {
    var segs := seq(|current|, j requires 0 <= j < |current| => Segments(current[j]));
    var common := CommonPrefix(segs);
    assert segs[i] == Segments(current[i]);
    var abs := if IsAbs(current[0]) then common else host.cwd + common;
    assert IsPrefix(abs, AbsParts(current[i], host.cwd)) by {
      if IsAbs(current[0]) {
        assert IsAbs(current[i]);
      } else {
        assert !IsAbs(current[i]);
        assert (host.cwd + Segments(current[i]))[..|host.cwd| + |common|] == host.cwd + common;
      }
    }
    if abs in host.regularFiles && |common| > 0 {
      assert AbsParts(current[i], host.cwd)[..|abs| - 1] == abs[..|abs| - 1];
    }
  }

  lemma {:induction false} CommonPrefix2OfPrefix(path: seq<string>, start: seq<string>)
    requires IsPrefix(start, path)
    ensures CommonPrefix2(path, start) == start
  {
    if |start| > 0 {
      assert IsPrefix(start[1..], path[1..]) by {
        assert path[1..][..|start| - 1] == path[..|start|][1..];
      }
      CommonPrefix2OfPrefix(path[1..], start[1..]);
      assert start == [start[0]] + start[1..];
    }
  }

  lemma {:induction false} JoinCharFree(parts: seq<string>, c: char)
    requires c != '/' && forall k :: 0 <= k < |parts| ==> c !in parts[k]
    ensures c !in Join(parts, "/")
  {
    if |parts| > 1 {
      assert forall k :: 0 <= k < |parts| - 1 ==> parts[1..][k] == parts[k + 1];
      JoinCharFree(parts[1..], c);
      assert c !in parts[0];
    }
  }

  /** A joined list of parts starts with its first part. */
  lemma JoinHead(parts: seq<string>)
    requires |parts| > 0
    ensures |Join(parts, "/")| >= |parts[0]| && Join(parts, "/")[..|parts[0]|] == parts[0]
    ensures |parts| > 1 ==> Join(parts, "/")[|parts[0]|] == '/'
  {
  }

  /** The key of a current path below the root is its parts below the root,
      joined with `/` (src/code_assembler/delta.py:87-88): `relpath` climbs
      no `..`, and the key never starts with `./`. */
  lemma RelKeyBelowRoot(a: string, root: seq<string>, cwd: seq<string>)
    requires a != "" && ProperParts(cwd)
    requires IsPrefix(root, AbsParts(a, cwd)) && |root| < |AbsParts(a, cwd)|
    requires forall k :: 0 <= k < |AbsParts(a, cwd)| ==> '\\' !in AbsParts(a, cwd)[k]
    ensures RelKey(a, root, cwd) == Join(AbsParts(a, cwd)[|root|..], "/")
  {
    var path := AbsParts(a, cwd);
    var parts := path[|root|..];
    CommonPrefix2OfPrefix(path, root);
    assert Repeat("..", 0) + parts == parts;
    assert forall k :: 0 <= k < |parts| ==> parts[k] == path[|root| + k];
    assert ProperParts(path) by {
      assert ProperParts(Segments(a));
      if !IsAbs(a) {
        forall k | |cwd| <= k < |path| ensures path[k] == Segments(a)[k - |cwd|] { }
      }
    }
    var rel := Join(parts, "/");
    JoinCharFree(parts, '\\');
    assert ReplaceChar(rel, '\\', '/') == rel;
    JoinHead(parts);
    assert parts[0] != "" && parts[0] != "." && '/' !in parts[0];
    assert StartsWith(rel, "./") ==> rel[0] == '.' && rel[1] == '/' by {
      if StartsWith(rel, "./") {
        assert rel[..2] == "./";
      }
    }
    if |parts[0]| >= 2 {
      assert rel[1] == parts[0][1] != '/';
    } else {
      assert parts[0] == [parts[0][0]];
      assert rel[0] == parts[0][0] != '.';
    }
  }

  // ---------------------------------------------------------------------------
  // Matching a relative path to a snapshot key

  /** The suffix rule: one path ends with the other and both name the same file. */
  predicate SuffixMatch(rel: string, key: string) {
    (EndsWith(rel, key) || EndsWith(key, rel)) && Name(rel) == Name(key)
  }

  /** The first key of `keys` the suffix rule accepts. */
  function FirstSuffixMatch(rel: string, keys: seq<string>): (r: Option<nat>)
    ensures r.Some? ==> r.value < |keys| && SuffixMatch(rel, keys[r.value])
    ensures r.Some? ==> forall j :: 0 <= j < r.value ==> !SuffixMatch(rel, keys[j])
    ensures r.None? ==> forall j :: 0 <= j < |keys| ==> !SuffixMatch(rel, keys[j])
  {
    if |keys| == 0 then None
    else if SuffixMatch(rel, keys[0]) then Some(0)
    else
      match FirstSuffixMatch(rel, keys[1..])
      case None => None
      case Some(j) => Some(j + 1)
  }

  /** The snapshot key a relative path is paired with
      (src/code_assembler/delta.py:93-104): the path itself when it is a key,
      otherwise the first key in snapshot order that passes the suffix rule. */
  function MatchKey(rel: string, snap: Snapshot): (r: Option<string>)
    requires snap.Valid()
    ensures rel in snap.stamps ==> r == Some(rel)
    ensures rel !in snap.stamps && r.Some? ==>
      exists i :: 0 <= i < |snap.order| && r.value == snap.order[i] && SuffixMatch(rel, snap.order[i])
        && forall j :: 0 <= j < i ==> !SuffixMatch(rel, snap.order[j])
    ensures rel !in snap.stamps && r.None? ==> forall k :: k in snap.stamps ==> !SuffixMatch(rel, k)
    ensures r.Some? ==> r.value in snap.stamps
  {
    if rel in snap.stamps then Some(rel)
    else
      match FirstSuffixMatch(rel, snap.order)
      case None => None
      case Some(i) => Some(snap.order[i])
  }

  /** `_has_changed`: the minute of the current time differs from the
      snapshot's, or the time cannot be read. */
  predicate HasChanged(absPath: string, snapshotStamp: Stamp, host: Host) {
    absPath !in host.mtime || host.mtime[absPath].minuteOf != snapshotStamp
  }

  /** Only the minute of the current time is compared: moving it within the
      same minute changes nothing, and it differs from the snapshot's stamp
      exactly when the file counts as changed. */
  lemma HasChangedMinuteOnly(absPath: string, stamp: Stamp, host: Host, t: LocalTime)
    requires absPath in host.mtime && t.minuteOf == host.mtime[absPath].minuteOf
    ensures HasChanged(absPath, stamp, host.(mtime := host.mtime[absPath := t])) == HasChanged(absPath, stamp, host)
    ensures HasChanged(absPath, stamp, host) <==> t.minuteOf != stamp
  {
  }

  /** How the loop turns a current path into a relative key: `RelKey` from
      the common root, passed around as a value. */
  type KeyOf = string -> string

  function RelKeys(root: seq<string>, cwd: seq<string>): KeyOf {
    a => RelKey(a, root, cwd)
  }

  /** The key `absPath` is matched to, when `if match_key:` accepts it (an
      empty key is falsy and counts as no match). */
  function MatchOf(absPath: string, snap: Snapshot, keyOf: KeyOf): (r: Option<string>)
    requires snap.Valid()
    ensures r.Some? ==> r.value in snap.stamps && r.value != ""
    ensures keyOf(absPath) in snap.stamps && keyOf(absPath) != "" ==> r == Some(keyOf(absPath))
  {
    var m := MatchKey(keyOf(absPath), snap);
    if m.Some? && m.value != "" then m else None
  }

  /** What the loop of src/code_assembler/delta.py:84-112 has gathered
      after the paths `xs`. */
  datatype Tally = Tally(modified: set<string>, added: set<string>, matched: set<string>)

  /** One path of the loop: unmatched paths are added; a matched path marks
      its key as seen and is modified when its minute moved. */
  function Absorb(t: Tally, a: string, snap: Snapshot, keyOf: KeyOf, host: Host): Tally
    requires snap.Valid()
  {
    match MatchOf(a, snap, keyOf)
    case None => Tally(t.modified, t.added + {a}, t.matched)
    case Some(k) =>
      Tally(if HasChanged(a, snap.stamps[k], host) then t.modified + {a} else t.modified,
            t.added, t.matched + {k})
  }

  function Reconcile(xs: seq<string>, snap: Snapshot, keyOf: KeyOf, host: Host): Tally
    requires snap.Valid()
  {
    if xs == [] then Tally({}, {}, {})
    else Absorb(Reconcile(xs[..|xs| - 1], snap, keyOf, host), xs[|xs| - 1], snap, keyOf, host)
  }

  lemma ReconcileStep(xs: seq<string>, a: string, snap: Snapshot, keyOf: KeyOf, host: Host)
    requires snap.Valid()
    ensures Reconcile(xs + [a], snap, keyOf, host) == Absorb(Reconcile(xs, snap, keyOf, host), a, snap, keyOf, host)
  {
    assert (xs + [a])[..|xs|] == xs;
  }

  /** After the loop, a path is added exactly when it has no key, modified
      exactly when its key's minute differs from its own, and a key is
      matched exactly when some path was paired with it. */
  lemma ReconcileSets(xs: seq<string>, snap: Snapshot, keyOf: KeyOf, host: Host)
    requires snap.Valid()
    ensures var t := Reconcile(xs, snap, keyOf, host);
      forall a :: a in t.added <==> a in xs && MatchOf(a, snap, keyOf).None?
    ensures var t := Reconcile(xs, snap, keyOf, host);
      forall a :: a in t.modified <==>
        (a in xs && MatchOf(a, snap, keyOf).Some?
         && HasChanged(a, snap.stamps[MatchOf(a, snap, keyOf).value], host))
    ensures var t := Reconcile(xs, snap, keyOf, host);
      forall k :: k in t.matched <==> (exists a :: a in xs && MatchOf(a, snap, keyOf) == Some(k))
  {
    ReconcilePaths(xs, snap, keyOf, host);
    ReconcileKeys(xs, snap, keyOf, host);
  }

  lemma {:induction false} ReconcilePaths(xs: seq<string>, snap: Snapshot, keyOf: KeyOf, host: Host)
    requires snap.Valid()
    ensures var t := Reconcile(xs, snap, keyOf, host);
      forall a :: a in t.added <==> a in xs && MatchOf(a, snap, keyOf).None?
    ensures var t := Reconcile(xs, snap, keyOf, host);
      forall a :: a in t.modified <==>
        (a in xs && MatchOf(a, snap, keyOf).Some?
         && HasChanged(a, snap.stamps[MatchOf(a, snap, keyOf).value], host))
  {
    if xs != [] {
      var init, a := xs[..|xs| - 1], xs[|xs| - 1];
      ReconcilePaths(init, snap, keyOf, host);
      assert forall b :: b in xs <==> b in init || b == a by {
        assert xs == init + [a];
      }
    }
  }

  lemma {:induction false} ReconcileKeys(xs: seq<string>, snap: Snapshot, keyOf: KeyOf, host: Host)
    requires snap.Valid()
    ensures var t := Reconcile(xs, snap, keyOf, host);
      forall k :: k in t.matched <==> (exists a :: a in xs && MatchOf(a, snap, keyOf) == Some(k))
  {
    if xs != [] {
      var init, a := xs[..|xs| - 1], xs[|xs| - 1];
      ReconcileKeys(init, snap, keyOf, host);
      assert forall b :: b in xs <==> b in init || b == a by {
        assert xs == init + [a];
      }
    }
  }

  /** What `get_delta` returns for a snapshot and the current files (in the
      order the set yields them). */
  function DeltaOf(snap: Snapshot, current: seq<string>, host: Host): (d: DeltaResult)
    requires snap.Valid()
    // without a baseline every current file is both modified and added
    ensures snap.stamps == map[] ==>
      d.modified == d.added == (set a | a in current) && d.deleted == {}
    // with one, a file is modified, added or unchanged, never two of these
    ensures snap.stamps != map[] ==>
      d.modified !! d.added && d.modified + d.added <= (set a | a in current)
    // a key is deleted exactly when no current file was paired with it
    ensures snap.stamps != map[] ==> forall k :: k in d.deleted <==>
      (k in snap.stamps
       && forall a :: a in current ==> MatchOf(a, snap, RelKeys(CommonRoot(current, host), host.cwd)) != Some(k))
  {
    if snap.stamps == map[] then
      DeltaResult(set a | a in current, set a | a in current, {})
    else
      var keyOf := RelKeys(CommonRoot(current, host), host.cwd);
      var t := Reconcile(current, snap, keyOf, host);
      ReconcileSets(current, snap, keyOf, host);
      DeltaResult(t.modified, t.added, snap.stamps.Keys - t.matched)
  }

  /** The snapshot key `relPath` is paired with, searched as the source does. */
  method FindMatchKey(relPath: string, snapshot: Snapshot) returns (matchKey: Option<string>)
    requires snapshot.Valid()
    ensures matchKey == MatchKey(relPath, snapshot)
  {
    if relPath in snapshot.stamps {
      return Some(relPath);
    }
    matchKey := None;
    var j := 0;
    while j < |snapshot.order|
      invariant 0 <= j <= |snapshot.order|
      invariant forall m :: 0 <= m < j ==> !SuffixMatch(relPath, snapshot.order[m])
    {
      if SuffixMatch(relPath, snapshot.order[j]) {
        assert FirstSuffixMatch(relPath, snapshot.order) == Some(j);
        return Some(snapshot.order[j]);
      }
      j := j + 1;
    }
  }

  /** The loop of src/code_assembler/delta.py:84-112. */
  method ReconcileFiles(current: seq<string>, snapshot: Snapshot, keyOf: KeyOf, host: Host)
    returns (modified: set<string>, added: set<string>, matchedKeys: set<string>)
    requires snapshot.Valid()
    ensures Tally(modified, added, matchedKeys) == Reconcile(current, snapshot, keyOf, host)
  {
    modified, added, matchedKeys := {}, {}, {};
    var i := 0;
    while i < |current|
      invariant 0 <= i <= |current|
      invariant Tally(modified, added, matchedKeys) == Reconcile(current[..i], snapshot, keyOf, host)
    {
      var absPath := current[i];
      var matchKey := FindMatchKey(keyOf(absPath), snapshot);
      ghost var before := Tally(modified, added, matchedKeys);
      assert MatchOf(absPath, snapshot, keyOf) == if matchKey.Some? && matchKey.value != "" then matchKey else None;
      if matchKey.Some? && matchKey.value != "" {
        matchedKeys := matchedKeys + {matchKey.value};
        if HasChanged(absPath, snapshot.stamps[matchKey.value], host) {
          modified := modified + {absPath};
        }
      } else {
        added := added + {absPath};
      }
      assert Tally(modified, added, matchedKeys) == Absorb(before, absPath, snapshot, keyOf, host);
      assert current[..i + 1] == current[..i] + [absPath];
      ReconcileStep(current[..i], absPath, snapshot, keyOf, host);
      i := i + 1;
    }
    assert current[..i] == current;
  }

  /** src/code_assembler/delta.py:60-118. */
  method GetDelta(mdDoc: Option<string>, decode: Decoder, current: seq<string>, host: Host)
    returns (modified: set<string>, added: set<string>, deleted: set<string>)
    ensures DeltaResult(modified, added, deleted) == DeltaOf(MetadataOf(mdDoc, decode), current, host)
  {
    var snapshot := ExtractMetadata(mdDoc, decode);
    if snapshot.stamps == map[] {
      var all := set a | a in current;
      return all, all, {};
    }
    var root := CommonRoot(current, host);
    var matchedKeys;
    modified, added, matchedKeys := ReconcileFiles(current, snapshot, RelKeys(root, host.cwd), host);
    deleted := snapshot.stamps.Keys - matchedKeys;
  }

  /** `filter_changed_files`: the files to re-read, and the deleted keys.
      Without a snapshot every current file is re-read; with one, a file is
      re-read exactly when it has no key or its key's minute differs from
      its own (or cannot be read), and a key is deleted exactly when no
      current file was paired with it. */
  function FilterChanged(snap: Snapshot, current: seq<string>, host: Host): (r: (set<string>, set<string>))
    requires snap.Valid()
    ensures r.0 <= set a | a in current
    ensures r.1 <= snap.stamps.Keys
    ensures snap.stamps == map[] ==> r.0 == (set a | a in current) && r.1 == {}
    ensures var keyOf := RelKeys(CommonRoot(current, host), host.cwd);
      snap.stamps != map[] ==> forall a :: a in r.0 <==>
        (a in current
         && (MatchOf(a, snap, keyOf).None? || HasChanged(a, snap.stamps[MatchOf(a, snap, keyOf).value], host)))
    ensures var keyOf := RelKeys(CommonRoot(current, host), host.cwd);
      forall k :: k in r.1 <==> k in snap.stamps && forall a :: a in current ==> MatchOf(a, snap, keyOf) != Some(k)
  {
    var d := DeltaOf(snap, current, host);
    ReconcileSets(current, snap, RelKeys(CommonRoot(current, host), host.cwd), host);
    (d.modified + d.added, d.deleted)
  }

  // ---------------------------------------------------------------------------
  // Properties

  /** When every path's key is a non-empty snapshot key, each path is paired
      with its own key: nothing is added, a path is modified exactly when
      its own minute moved, and the keys matched are the paths' keys. */
  lemma KnownKeysPaired(xs: seq<string>, snap: Snapshot, keyOf: KeyOf, host: Host)
    requires snap.Valid()
    requires forall a :: a in xs ==> keyOf(a) != "" && keyOf(a) in snap.stamps
    ensures var t := Reconcile(xs, snap, keyOf, host);
      && t.added == {}
      && (forall a :: a in t.modified <==> a in xs && HasChanged(a, snap.stamps[keyOf(a)], host))
      && (forall k :: k in t.matched <==> exists a :: a in xs && keyOf(a) == k)
  {
    ReconcileSets(xs, snap, keyOf, host);
    var t := Reconcile(xs, snap, keyOf, host);
    forall k | k in t.matched ensures exists a :: a in xs && keyOf(a) == k {
      var a :| a in xs && MatchOf(a, snap, keyOf) == Some(k);
    }
  }

  /** Files whose relative paths are snapshot keys are paired with exactly
      those keys, however many other keys share their file name: nothing is
      added, a file is modified exactly when its own minute moved, and the
      keys no file names are deleted. */
  lemma KnownPathsPairedExactly(snap: Snapshot, current: seq<string>, host: Host)
    requires snap.Valid() && snap.stamps != map[]
    requires var keyOf := RelKeys(CommonRoot(current, host), host.cwd);
      forall a :: a in current ==> keyOf(a) != "" && keyOf(a) in snap.stamps
    ensures var keyOf := RelKeys(CommonRoot(current, host), host.cwd);
      var d := DeltaOf(snap, current, host);
      && d.added == {}
      && (forall a :: a in d.modified <==> a in current && HasChanged(a, snap.stamps[keyOf(a)], host))
      && (forall k :: k in d.deleted <==> k in snap.stamps && forall a :: a in current ==> keyOf(a) != k)
  {
    KnownKeysPaired(current, snap, RelKeys(CommonRoot(current, host), host.cwd), host);
  }

  /** Reconciling against a snapshot taken of the same files, none of which
      was touched since, reports no change at all. */
  lemma UnchangedFilesNoDelta(snap: Snapshot, current: seq<string>, host: Host)
    requires snap.Valid() && snap.stamps != map[]
    requires var keyOf := RelKeys(CommonRoot(current, host), host.cwd);
      forall a :: a in current ==>
        keyOf(a) != "" && keyOf(a) in snap.stamps
        && a in host.mtime && host.mtime[a].minuteOf == snap.stamps[keyOf(a)]
    requires var keyOf := RelKeys(CommonRoot(current, host), host.cwd);
      forall k :: k in snap.stamps ==> exists a :: a in current && keyOf(a) == k
    ensures DeltaOf(snap, current, host) == DeltaResult({}, {}, {})
  {
    var d := DeltaOf(snap, current, host);
    KnownPathsPairedExactly(snap, current, host);
    assert d.modified == {};
    NoKeyLeft(d.deleted, snap.stamps.Keys, current, RelKeys(CommonRoot(current, host), host.cwd));
  }

  /** When every key is named by some current file, no key is left over. */
  lemma NoKeyLeft(left: set<string>, keys: set<string>, current: seq<string>, keyOf: KeyOf)
    requires forall k :: k in left <==> k in keys && forall a :: a in current ==> keyOf(a) != k
    requires forall k :: k in keys ==> exists a :: a in current && keyOf(a) == k
    ensures left == {}
  {
    forall k | k in keys ensures k !in left {
      var a :| a in current && keyOf(a) == k;
    }
  }

  // ---------------------------------------------------------------------------
  // format_delta_summary (src/code_assembler/delta.py:135-150): the
  // one-paragraph change report.  Each set of paths is given as a
  // duplicate-free list in the order Python iterates it, so its length is
  // `len(files)`; the report does not depend on that order.

  const ModifiedIcon := "\U{270F}\U{FE0F} "
  const AddedIcon := "\U{2795}"
  const DeletedIcon := "\U{274C}"
  const NoChanges := "> \U{2705} No changes detected since last snapshot"

  /** The file names of the paths, `Path(p).name` each. */
  function Names(paths: seq<string>): (r: seq<string>)
    ensures |r| == |paths|
    ensures forall i :: 0 <= i < |paths| ==> r[i] == Name(paths[i])
  {
    seq(|paths|, i requires 0 <= i < |paths| => Name(paths[i]))
  }

  /** The names shown: the first five in sorted order, then how many more. */
  function Display(names: seq<string>, count: nat): string {
    var shown := if |names| <= 5 then names else names[..5];
    Join(shown, ", ") + (if count > 5 then ", ... (+" + IntString(count - 5) + ")" else "")
  }

  /** The line of one group: icon, title, count, then the names shown. */
  function GroupLine(paths: seq<string>, title: string, icon: string): string {
    "> " + icon + " " + title + " (" + DecimalString(|paths|) + "): "
      + Display(SortStrings(Names(paths)), |paths|)
  }

  /** `_fmt`: nothing for an empty set, else one line opening with its icon. */
  function FormatGroup(paths: seq<string>, title: string, icon: string): (r: seq<string>)
    ensures |r| == (if |paths| == 0 then 0 else 1)
    ensures r != [] ==> StartsWith(r[0], "> " + icon)
  {
    if |paths| == 0 then []
    else
      var line := GroupLine(paths, title, icon);
      assert line[..|"> " + icon|] == "> " + icon;
      [line]
  }

  function Lines(modified: seq<string>, added: seq<string>, deleted: seq<string>): seq<string> {
    FormatGroup(modified, "Modified", ModifiedIcon)
      + FormatGroup(added, "Added", AddedIcon)
      + FormatGroup(deleted, "Deleted", DeletedIcon)
  }

  /** `format_delta_summary`. */
  function Summary(modified: seq<string>, added: seq<string>, deleted: seq<string>): (r: string)
    requires Distinct(modified) && Distinct(added) && Distinct(deleted)
    // the all-clear line appears exactly when nothing changed
    ensures r == NoChanges <==> |modified| == 0 && |added| == 0 && |deleted| == 0
    // otherwise the report opens with the first non-empty group's icon
    ensures |modified| > 0 ==> StartsWith(r, "> " + ModifiedIcon)
    ensures |modified| == 0 && |added| > 0 ==> StartsWith(r, "> " + AddedIcon)
    ensures |modified| == 0 && |added| == 0 && |deleted| > 0 ==> StartsWith(r, "> " + DeletedIcon)
    // and is the group lines of `LinesInOrder`, joined
    ensures r != NoChanges ==> r == Join(Lines(modified, added, deleted), "\n")
  {
    var lines := Lines(modified, added, deleted);
    LinesHead(modified, added, deleted);
    if lines == [] then NoChanges
    else
      JoinedReport(modified, added, deleted);
      Join(lines, "\n")
  }

  /** `format_delta_summary` as the source writes it: the lines of the
      non-empty groups are appended in turn, the all-clear line when there
      are none, and the lines are joined. */
  method FormatDeltaSummary(modified: seq<string>, added: seq<string>, deleted: seq<string>) returns (r: string)
    requires Distinct(modified) && Distinct(added) && Distinct(deleted)
    ensures r == Summary(modified, added, deleted)
  {
    var lines: seq<string> := [];
    lines := lines + FormatGroup(modified, "Modified", ModifiedIcon);
    lines := lines + FormatGroup(added, "Added", AddedIcon);
    lines := lines + FormatGroup(deleted, "Deleted", DeletedIcon);
    assert lines == Lines(modified, added, deleted);
    if lines == [] {
      lines := lines + [NoChanges];
      assert Join(lines, "\n") == NoChanges;
    }
    r := Join(lines, "\n");
  }

  /** The joined lines of a non-empty report open with the first group's
      icon, so they are never the all-clear line. */
  lemma JoinedReport(modified: seq<string>, added: seq<string>, deleted: seq<string>)
    requires |modified| > 0 || |added| > 0 || |deleted| > 0
    ensures var r := Join(Lines(modified, added, deleted), "\n");
      && r != NoChanges
      && (|modified| > 0 ==> StartsWith(r, "> " + ModifiedIcon))
      && (|modified| == 0 && |added| > 0 ==> StartsWith(r, "> " + AddedIcon))
      && (|modified| == 0 && |added| == 0 && |deleted| > 0 ==> StartsWith(r, "> " + DeletedIcon))
  {
    var lines := Lines(modified, added, deleted);
    LinesHead(modified, added, deleted);
    JoinStartsWith(lines, "\n");
    var r := Join(lines, "\n");
    if |modified| > 0 {
      NotAllClear(r, ModifiedIcon);
    } else if |added| > 0 {
      NotAllClear(r, AddedIcon);
    } else {
      NotAllClear(r, DeletedIcon);
    }
  }

  lemma NotAllClear(r: string, icon: string)
    requires |icon| > 0 && icon[0] != '\U{2705}' && StartsWith(r, "> " + icon)
    ensures r != NoChanges
  {
    assert r[2] == icon[0];
  }

  /** Which line comes first. */
  lemma LinesHead(modified: seq<string>, added: seq<string>, deleted: seq<string>)
    ensures var lines := Lines(modified, added, deleted);
      && (lines == [] <==> |modified| == 0 && |added| == 0 && |deleted| == 0)
      && (|modified| > 0 ==> StartsWith(lines[0], "> " + ModifiedIcon))
      && (|modified| == 0 && |added| > 0 ==> StartsWith(lines[0], "> " + AddedIcon))
      && (|modified| == 0 && |added| == 0 && |deleted| > 0 ==> StartsWith(lines[0], "> " + DeletedIcon))
  {
    var m := FormatGroup(modified, "Modified", ModifiedIcon);
    var a := FormatGroup(added, "Added", AddedIcon);
    var d := FormatGroup(deleted, "Deleted", DeletedIcon);
    assert Lines(modified, added, deleted) == m + a + d;
  }

  /** One line per non-empty set, in the order Modified, Added, Deleted, each
      holding its icon, title, count and names. */
  lemma LinesInOrder(modified: seq<string>, added: seq<string>, deleted: seq<string>)
    ensures Lines(modified, added, deleted) ==
      (if |modified| > 0 then [GroupLine(modified, "Modified", ModifiedIcon)] else [])
      + (if |added| > 0 then [GroupLine(added, "Added", AddedIcon)] else [])
      + (if |deleted| > 0 then [GroupLine(deleted, "Deleted", DeletedIcon)] else [])
    ensures |Lines(modified, added, deleted)| ==
      (if |modified| > 0 then 1 else 0) + (if |added| > 0 then 1 else 0) + (if |deleted| > 0 then 1 else 0)
  {
  }

  lemma JoinStartsWith(lines: seq<string>, sep: string)
    requires |lines| > 0
    ensures StartsWith(Join(lines, sep), lines[0])
    ensures forall p :: StartsWith(lines[0], p) ==> StartsWith(Join(lines, sep), p)
  {
    if |lines| > 1 {
      assert Join(lines, sep) == lines[0] + (sep + Join(lines[1..], sep));
    }
  }

  // ---------------------------------------------------------------------------
  // The report does not depend on the order the sets are iterated in

  /** Dropping position `j` removes one copy of `s[j]`. */
  function Without(s: seq<string>, j: nat): (r: seq<string>)
    requires j < |s|
    ensures multiset(r) == multiset(s) - multiset{s[j]}
    ensures |r| == |s| - 1
  {
    assert s == s[..j] + [s[j]] + s[j + 1..];
    s[..j] + s[j + 1..]
  }

  lemma NamesWithout(s: seq<string>, j: nat)
    requires j < |s|
    ensures multiset(Names(Without(s, j))) == multiset(Names(s)) - multiset{Name(s[j])}
  {
    assert Names(Without(s, j)) == Without(Names(s), j);
  }

  lemma AddBack(a: multiset<string>, b: multiset<string>, n: string)
    requires n in a && n in b && a - multiset{n} == b - multiset{n}
    ensures a == b
  {
    assert a == (a - multiset{n}) + multiset{n};
    assert b == (b - multiset{n}) + multiset{n};
  }

  lemma {:induction false} NamesPermutation(xs: seq<string>, ys: seq<string>)
    requires multiset(xs) == multiset(ys)
    ensures multiset(Names(xs)) == multiset(Names(ys))
    decreases |xs|
  {
    if |xs| > 0 {
      assert xs[0] in multiset(ys);
      var j :| 0 <= j < |ys| && ys[j] == xs[0];
      var xs', ys' := Without(xs, 0), Without(ys, j);
      NamesPermutation(xs', ys');
      NamesWithout(xs, 0);
      NamesWithout(ys, j);
      var n := Name(xs[0]);
      assert Names(xs)[0] == n && Names(ys)[j] == n;
      AddBack(multiset(Names(xs)), multiset(Names(ys)), n);
    } else {
      assert |ys| == |multiset(ys)| == 0;
    }
  }

  lemma SortedNamesOrderFree(xs: seq<string>, ys: seq<string>)
    requires multiset(xs) == multiset(ys)
    ensures SortStrings(Names(xs)) == SortStrings(Names(ys))
  {
    NamesPermutation(xs, ys);
    SortStringsSorted(Names(xs));
    SortStringsSorted(Names(ys));
    SortedUnique(SortStrings(Names(xs)), SortStrings(Names(ys)));
  }

  /** Two duplicate-free lists of the same members are permutations of
      each other. */
  lemma SameSetSameMultiset(a: seq<string>, b: seq<string>)
    requires Distinct(a) && Distinct(b) && forall x :: x in a <==> x in b
    ensures multiset(a) == multiset(b)
  {
    forall x ensures multiset(a)[x] == multiset(b)[x] {
      DistinctCount(a, x);
      DistinctCount(b, x);
      if x in a {
        assert x in multiset(a) && x in multiset(b);
      } else {
        assert x !in multiset(a) && x !in multiset(b);
      }
    }
    assert multiset(a) == multiset(b);
  }

  /** Listing the same three sets in any other order gives the same report. */
  lemma SummaryOrderFree(m1: seq<string>, a1: seq<string>, d1: seq<string>,
                         m2: seq<string>, a2: seq<string>, d2: seq<string>)
    requires Distinct(m1) && Distinct(a1) && Distinct(d1) && Distinct(m2) && Distinct(a2) && Distinct(d2)
    requires forall x :: x in m1 <==> x in m2
    requires forall x :: x in a1 <==> x in a2
    requires forall x :: x in d1 <==> x in d2
    ensures Summary(m1, a1, d1) == Summary(m2, a2, d2)
  {
    SameSetSameMultiset(m1, m2);
    SameSetSameMultiset(a1, a2);
    SameSetSameMultiset(d1, d2);
    SortedNamesOrderFree(m1, m2);
    SortedNamesOrderFree(a1, a2);
    SortedNamesOrderFree(d1, d2);
    assert |m1| == |multiset(m1)| == |m2|;
    assert |a1| == |multiset(a1)| == |a2|;
    assert |d1| == |multiset(d1)| == |d2|;
  }

  /** At most five names are listed, in sorted order: all of them when there
      are five or fewer, otherwise the five smallest and how many more. */
  lemma DisplayedNamesAreLeast(paths: seq<string>)
    ensures var sorted := SortStrings(Names(paths));
      |paths| <= 5 ==>
        Display(sorted, |paths|) == Join(sorted, ", ")
        && multiset(sorted) == multiset(Names(paths)) && Sorted(sorted)
    ensures var sorted := SortStrings(Names(paths));
      |paths| > 5 ==>
        Display(sorted, |paths|) == Join(sorted[..5], ", ") + ", ... (+" + IntString(|paths| - 5) + ")"
        && forall i, j :: 0 <= i < 5 <= j < |sorted| ==> StrLe(sorted[i], sorted[j])
  {
    var names := Names(paths);
    SortStringsSorted(names);
    DisplayCases(SortStrings(names), |paths|);
  }

  /** The two shapes of the shown names, by count. */
  lemma DisplayCases(names: seq<string>, count: nat)
    requires |names| == count && Sorted(names)
    ensures count <= 5 ==> Display(names, count) == Join(names, ", ")
    ensures count > 5 ==>
      && Display(names, count) == Join(names[..5], ", ") + ", ... (+" + IntString(count - 5) + ")"
      && forall i, j :: 0 <= i < 5 <= j < |names| ==> StrLe(names[i], names[j])
  {
    if count <= 5 {
      assert Display(names, count) == Join(names, ", ") + "";
    }
  }
}
