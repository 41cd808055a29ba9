/** The architecture analyzer (src/code_assembler/analyzers.py): files per
    depth, top-level components, design patterns guessed from file names and
    extensions ordered by how many files have them. Language names and
    percentages are not modelled. */
module Analyzers {
  import opened Strings
  import opened Config
  import Delta

  datatype Component = Component(name: string, count: nat)

  /** One entry of the pattern table: file-name fragments and the text
      reported when one of them shows up. */
  datatype PatternInfo = PatternInfo(indicators: seq<string>, description: string)

  /** The dictionary `analyze_data` returns. */
  datatype Analysis = Analysis(components: seq<Component>, distribution: seq<(string, nat)>,
                               patterns: seq<string>, maxDepth: int, depthDistribution: seq<(int, nat)>)

  // ---------------------------------------------------------------------------
  // Counting file entries

  /** The number of file entries. */
  function FileCount(entries: seq<FileEntry>): nat {
    if entries == [] then 0
    else FileCount(entries[..|entries| - 1]) + (if entries[|entries| - 1].IsFile() then 1 else 0)
  }

  /** The number of file entries at depth `d`. */
  function FileCountAt(entries: seq<FileEntry>, d: int): nat {
    if entries == [] then 0
    else
      var e := entries[|entries| - 1];
      FileCountAt(entries[..|entries| - 1], d) + (if e.IsFile() && e.depth == d then 1 else 0)
  }

  /** The number of file entries with `name` among their path parts. */
  function FilesWithPart(entries: seq<FileEntry>, name: string): nat {
    if entries == [] then 0
    else
      var e := entries[|entries| - 1];
      FilesWithPart(entries[..|entries| - 1], name) + (if e.IsFile() && name in Segments(e.path) then 1 else 0)
  }

  // ---------------------------------------------------------------------------
  // Depth distribution

  function Keys(dist: seq<(int, nat)>): (r: seq<int>)
    ensures |r| == |dist| && forall i :: 0 <= i < |dist| ==> r[i] == dist[i].0
  {
    seq(|dist|, i requires 0 <= i < |dist| => dist[i].0)
  }

  predicate Ascending(dist: seq<(int, nat)>) {
    forall i, j :: 0 <= i < j < |dist| ==> dist[i].0 < dist[j].0
  }

  /** What `_get_depth_distribution` returns: one entry per depth that holds
      a file, ascending, with the number of files there. */
  ghost predicate DepthSpec(entries: seq<FileEntry>, dist: seq<(int, nat)>) {
    && Ascending(dist)
    && (forall d :: d in Keys(dist) <==> FileCountAt(entries, d) > 0)
    && (forall i :: 0 <= i < |dist| ==> dist[i].1 == FileCountAt(entries, dist[i].0))
    && CountSum(dist) == FileCount(entries)
  }

  /** Insertion by depth into an ascending list. */
  function InsertByDepth(x: (int, nat), s: seq<(int, nat)>): (r: seq<(int, nat)>)
    ensures |r| == |s| + 1
    ensures forall p :: p in r <==> p == x || p in s
    ensures CountSum(r) == CountSum(s) + x.1
  {
    if s == [] then [x]
    else if x.0 < s[0].0 then [x] + s
    else
      assert s == [s[0]] + s[1..];
      assert ([s[0]] + InsertByDepth(x, s[1..]))[1..] == InsertByDepth(x, s[1..]);
      [s[0]] + InsertByDepth(x, s[1..])
  }

  /** `sorted(items)` for items with distinct depths. */
  function SortByDepth(items: seq<(int, nat)>): (r: seq<(int, nat)>)
    ensures |r| == |items|
    ensures forall p :: p in r <==> p in items
    ensures CountSum(r) == CountSum(items)
  {
    if items == [] then []
    else
      assert items == [items[0]] + items[1..];
      InsertByDepth(items[0], SortByDepth(items[1..]))
  }

  lemma AscendingCons(a: (int, nat), u: seq<(int, nat)>)
    requires Ascending(u) && forall p :: p in u ==> a.0 < p.0
    ensures Ascending([a] + u)
  {
    var r := [a] + u;
    forall i, j | 0 <= i < j < |r| ensures r[i].0 < r[j].0 {
      assert r[j] == u[j - 1] && u[j - 1] in u;
      if i > 0 {
        assert r[i] == u[i - 1];
      }
    }
  }

  lemma AscendingTail(s: seq<(int, nat)>)
    requires s != [] && Ascending(s)
    ensures Ascending(s[1..]) && Keys(s[1..]) == Keys(s)[1..]
    ensures forall p :: p in s[1..] ==> s[0].0 < p.0
  {
    forall p | p in s[1..] ensures s[0].0 < p.0 {
      var k :| 0 <= k < |s[1..]| && s[1..][k] == p;
      assert s[k + 1] == p;
    }
  }

  lemma {:induction false} InsertByDepthAscending(x: (int, nat), s: seq<(int, nat)>)
    requires Ascending(s) && x.0 !in Keys(s)
    ensures Ascending(InsertByDepth(x, s))
  {
    if s == [] {
    } else if x.0 < s[0].0 {
      AscendingCons(x, s);
    } else {
      assert x.0 != Keys(s)[0];
      var t := s[1..];
      AscendingTail(s);
      assert x.0 !in Keys(t);
      InsertByDepthAscending(x, t);
      AscendingCons(s[0], InsertByDepth(x, t));
    }
  }


  lemma {:induction false} SortByDepthAscending(items: seq<(int, nat)>)
    requires Distinct(Keys(items))
    ensures Ascending(SortByDepth(items))
  {
    if items != [] {
      var t := items[1..];
      assert Distinct(Keys(t)) by {
        forall i, j | 0 <= i < j < |t| ensures Keys(t)[i] != Keys(t)[j] {
          assert Keys(t)[i] == Keys(items)[i + 1] && Keys(t)[j] == Keys(items)[j + 1];
        }
      }
      SortByDepthAscending(t);
      var sorted := SortByDepth(t);
      forall i | 0 <= i < |sorted| ensures sorted[i].0 != items[0].0 {
        assert sorted[i] in t;
        var k :| 0 <= k < |t| && t[k] == sorted[i];
        assert Keys(items)[k + 1] == sorted[i].0;
      }
      InsertByDepthAscending(items[0], sorted);
    }
  }

  /** The largest of a non-empty list of depths. */
  function MaxOf(s: seq<int>): (m: int)
    requires s != []
    ensures m in s && forall x :: x in s ==> x <= m
  {
    if |s| == 1 then s[0]
    else
      var rest := MaxOf(s[1..]);
      assert s == [s[0]] + s[1..];
      if s[0] > rest then s[0] else rest
  }

  /** What the counting loop leaves behind: the depths in first-seen order,
      each with its number of files. */
  ghost predicate Tallied(entries: seq<FileEntry>, order: seq<int>, counts: map<int, nat>) {
    && Distinct(order)
    && (forall d :: d in counts <==> d in order)
    && (forall d :: d in counts <==> FileCountAt(entries, d) > 0)
    && (forall d :: d in counts ==> counts[d] == FileCountAt(entries, d))
    && CountTotal(order, counts) == FileCount(entries)
    && (order == [] <==> FileCount(entries) == 0)
  }

  /** One more entry tallied. */
  lemma TallyStep(entries: seq<FileEntry>, i: nat, order: seq<int>, counts: map<int, nat>)
    requires i < |entries| && Tallied(entries[..i], order, counts)
    ensures var e := entries[i];
      if !e.IsFile() then Tallied(entries[..i + 1], order, counts)
      else
        var order' := if e.depth in counts then order else order + [e.depth];
        var base := if e.depth in counts then counts else counts[e.depth := 0];
        Tallied(entries[..i + 1], order', base[e.depth := base[e.depth] + 1])
  {
    var e := entries[i];
    assert entries[..i + 1][..i] == entries[..i];
    assert forall k :: k in order ==> k in counts;
    if e.IsFile() {
      var d := e.depth;
      if d !in counts {
        assert d !in order;
        var order' := order + [d];
        var base := counts[d := 0];
        CountTotalOther(order, counts, d, 0);
        CountTotalAppend(order, base, d);
        assert Distinct(order') by {
          forall a, b | 0 <= a < b < |order'| ensures order'[a] != order'[b] {
            if b < |order| {
              assert order'[a] == order[a] && order'[b] == order[b];
            } else {
              assert order'[a] in order;
            }
          }
        }
        CountTotalBump(order', base, d);
      } else {
        CountTotalBump(order, counts, d);
      }
    }
  }

  /** The tallied depths, sorted, are the distribution; the last one is the
      largest depth. */
  lemma SortedTally(entries: seq<FileEntry>, order: seq<int>, counts: map<int, nat>)
    requires Tallied(entries, order, counts)
    ensures var dist := SortByDepth(ItemsOf(order, counts));
      && DepthSpec(entries, dist)
      && |dist| == |order|
      && (order != [] ==> dist[|dist| - 1].0 == MaxOf(order))
  {
    var items := ItemsOf(order, counts);
    var dist := SortByDepth(items);
    assert Keys(items) == order;
    SortByDepthAscending(items);
    ItemsSum(order, counts);
    forall i | 0 <= i < |dist| ensures dist[i].0 in order && dist[i].1 == counts[dist[i].0] {
      assert dist[i] in items;
    }
    forall d | d in order ensures d in Keys(dist) {
      var k :| 0 <= k < |order| && order[k] == d;
      assert items[k] in dist;
    }
    if order != [] {
      LastIsMax(dist, order);
    }
  }

  /** The last depth of an ascending list holding exactly the given depths is
      their maximum. */
  lemma LastIsMax(dist: seq<(int, nat)>, order: seq<int>)
    requires order != [] && |dist| == |order| && Ascending(dist)
    requires forall i :: 0 <= i < |dist| ==> dist[i].0 in order
    requires forall d :: d in order ==> d in Keys(dist)
    ensures dist[|dist| - 1].0 == MaxOf(order)
  {
    var m := MaxOf(order);
    assert m in Keys(dist);
    var k :| 0 <= k < |dist| && Keys(dist)[k] == m;
    var last := dist[|dist| - 1].0;
    assert last in order;
    assert forall i :: 0 <= i < |dist| - 1 ==> dist[i].0 < last;
    assert dist[k].0 <= last;
  }

  // ---------------------------------------------------------------------------
  // Components

  /** `os.path.commonpath` refuses a mix of absolute and relative paths. */
  predicate Mixed(entries: seq<FileEntry>) {
    && (exists i :: 0 <= i < |entries| && Delta.IsAbs(entries[i].path))
    && (exists i :: 0 <= i < |entries| && !Delta.IsAbs(entries[i].path))
  }

  function EntryParts(entries: seq<FileEntry>): (r: seq<seq<string>>)
    ensures |r| == |entries| && forall i :: 0 <= i < |r| ==> r[i] == Segments(entries[i].path)
  {
    seq(|entries|, i requires 0 <= i < |entries| => Segments(entries[i].path))
  }

  /** The common root of the entries, as parts. */
  function Root(entries: seq<FileEntry>): (r: seq<string>)
    requires entries != []
    ensures forall i :: 0 <= i < |entries| ==> Delta.IsPrefix(r, Segments(entries[i].path))
  {
    Delta.CommonPrefix(EntryParts(entries))
  }

  /** The first part below the root, for a path at least two parts below it. */
  function TopOf(parts: seq<string>, root: seq<string>): Option<string> {
    if |parts| > |root| + 1 then Some(parts[|root|]) else None
  }

  ghost predicate IsTopDir(entries: seq<FileEntry>, root: seq<string>, name: string) {
    exists i :: 0 <= i < |entries| && TopOf(Segments(entries[i].path), root) == Some(name)
  }

  /** The top directories in order of first appearance, once each. */
  function TopsOf(entries: seq<FileEntry>, root: seq<string>): (r: seq<string>)
    ensures Distinct(r)
  {
    if entries == [] then []
    else
      var r0 := TopsOf(entries[..|entries| - 1], root);
      match TopOf(Segments(entries[|entries| - 1].path), root)
      case None => r0
      case Some(t) =>
        if t in r0 then r0 else DistinctSnoc(r0, t); r0 + [t]
  }

  lemma TopsOfSnoc(entries: seq<FileEntry>, i: nat, root: seq<string>)
    requires i < |entries|
    ensures var r0 := TopsOf(entries[..i], root);
      TopsOf(entries[..i + 1], root) ==
        match TopOf(Segments(entries[i].path), root)
        case None => r0
        case Some(t) => if t in r0 then r0 else r0 + [t]
  {
    assert entries[..i + 1][..i] == entries[..i];
  }

  lemma IsTopDirSnoc(entries: seq<FileEntry>, root: seq<string>, n: string)
    requires entries != []
    ensures IsTopDir(entries, root, n) <==>
      IsTopDir(entries[..|entries| - 1], root, n) || TopOf(Segments(entries[|entries| - 1].path), root) == Some(n)
  {
    var init := entries[..|entries| - 1];
    if IsTopDir(entries, root, n) {
      var i :| 0 <= i < |entries| && TopOf(Segments(entries[i].path), root) == Some(n);
      if i < |init| {
        assert init[i] == entries[i];
      }
    }
    if IsTopDir(init, root, n) {
      var i :| 0 <= i < |init| && TopOf(Segments(init[i].path), root) == Some(n);
      assert entries[i] == init[i];
    }
  }

  lemma {:induction false} TopsOfMembers(entries: seq<FileEntry>, root: seq<string>)
    ensures forall n :: n in TopsOf(entries, root) <==> IsTopDir(entries, root, n)
  {
    if entries != [] {
      TopsOfMembers(entries[..|entries| - 1], root);
      forall n ensures n in TopsOf(entries, root) <==> IsTopDir(entries, root, n) {
        IsTopDirSnoc(entries, root, n);
      }
    }
  }

  function Names(cs: seq<Component>): (r: seq<string>)
    ensures |r| == |cs| && forall i :: 0 <= i < |cs| ==> r[i] == cs[i].name
  {
    seq(|cs|, i requires 0 <= i < |cs| => cs[i].name)
  }

  /** What `_get_components` returns for a non-empty list: the top
      directories once each in sorted order, each with its number of files. */
  ghost predicate ComponentsSpec(entries: seq<FileEntry>, cs: seq<Component>)
    requires entries != []
  {
    && Sorted(Names(cs))
    && Distinct(Names(cs))
    && (forall n :: n in Names(cs) <==> IsTopDir(entries, Root(entries), n))
    && (forall i :: 0 <= i < |cs| ==> cs[i].count == FilesWithPart(entries, cs[i].name))
  }

  // ---------------------------------------------------------------------------
  // Patterns

  /** `patterns_map`, in its declaration order. */
  const PatternTable: seq<PatternInfo> := [
    PatternInfo(["model.py", "view.py", "controller.py"], "Model-View-Controller pattern detected"),
    PatternInfo(["test_", "__test__", "tests.py", "test.py"], "Organized test structure"),
    PatternInfo([".env", "config.py", "settings.py", "config.yml", "pyproject.toml"], "Centralized configuration files"),
    PatternInfo(["readme.md", "docs/", "documentation/"], "Structured documentation"),
    PatternInfo(["routes.py", "api.py", "endpoints.py", "views.py"], "API/Routes architecture"),
    PatternInfo(["models.py", "schema.py", "migrations/", "db.py"], "Persistence/Database layer")
  ]

  /** `Path(path).name.lower()`. */
  function LowerName(e: FileEntry): string {
    Lower(e.Name())
  }

  /** `str(Path(path).parent)`: the key files are grouped under. */
  function ParentText(path: string): string {
    var parts := Segments(path);
    var up := if parts == [] then [] else parts[..|parts| - 1];
    if Delta.IsAbs(path) then "/" + Join(up, "/")
    else if up == [] then "."
    else Join(up, "/")
  }

  /** Some indicator occurs in the file name. */
  predicate Shows(name: string, indicators: seq<string>) {
    exists k :: 0 <= k < |indicators| && Contains(name, indicators[k])
  }

  /** The check made for one directory: some indicator in some of its files. */
  predicate DirShows(files: set<string>, indicators: seq<string>) {
    exists f :: f in files && Shows(f, indicators)
  }

  /** A pattern is detected when some file entry's lower-cased name holds
      one of its indicators. */
  ghost predicate Detected(entries: seq<FileEntry>, info: PatternInfo) {
    exists i :: 0 <= i < |entries| && entries[i].IsFile() && Shows(LowerName(entries[i]), info.indicators)
  }

  /** The descriptions of the detected patterns of `infos`, in table order. */
  ghost function DetectedDescriptions(infos: seq<PatternInfo>, entries: seq<FileEntry>): seq<string> {
    if infos == [] then []
    else
      var info := infos[|infos| - 1];
      DetectedDescriptions(infos[..|infos| - 1], entries) + (if Detected(entries, info) then [info.description] else [])
  }

  /** Some pattern of `infos` with description `d` is detected. */
  ghost predicate DescribedBy(infos: seq<PatternInfo>, entries: seq<FileEntry>, d: string) {
    exists k :: 0 <= k < |infos| && infos[k].description == d && Detected(entries, infos[k])
  }

  lemma DescribedBySnoc(infos: seq<PatternInfo>, entries: seq<FileEntry>, d: string)
    requires infos != []
    ensures var last := infos[|infos| - 1];
      DescribedBy(infos, entries, d) <==>
        DescribedBy(infos[..|infos| - 1], entries, d) || (last.description == d && Detected(entries, last))
  {
    var init := infos[..|infos| - 1];
    if DescribedBy(infos, entries, d) {
      var k :| 0 <= k < |infos| && infos[k].description == d && Detected(entries, infos[k]);
      if k < |init| {
        assert init[k] == infos[k];
      }
    }
    if DescribedBy(init, entries, d) {
      var k :| 0 <= k < |init| && init[k].description == d && Detected(entries, init[k]);
      assert infos[k] == init[k];
    }
  }

  lemma {:induction false} DetectedDescriptionsMembers(infos: seq<PatternInfo>, entries: seq<FileEntry>)
    ensures forall d :: d in DetectedDescriptions(infos, entries) <==> DescribedBy(infos, entries, d)
  {
    if infos != [] {
      DetectedDescriptionsMembers(infos[..|infos| - 1], entries);
      forall d ensures d in DetectedDescriptions(infos, entries) <==> DescribedBy(infos, entries, d) {
        DescribedBySnoc(infos, entries, d);
      }
    }
  }

  /** What `_get_patterns` returns: the detected descriptions, once each, in
      sorted order. */
  ghost predicate PatternsSpec(entries: seq<FileEntry>, r: seq<string>) {
    && Sorted(r)
    && Distinct(r)
    && forall d :: d in r <==> DescribedBy(PatternTable, entries, d)
  }

  /** A lower-cased file name holds no `/`, so an indicator with a `/` in it
      never shows. */
  lemma SlashIndicatorInert(e: FileEntry, ind: string)
    requires '/' in ind
    ensures !Contains(LowerName(e), ind)
  {
    var name := LowerName(e);
    var j :| 0 <= j < |ind| && ind[j] == '/';
    forall i | 0 <= i <= |name| - |ind| ensures !OccursAt(name, ind, i) {
      if i + |ind| <= |name| {
        assert LowerChar(e.Name()[i + j]) != '/';
        assert name[i..i + |ind|][j] != ind[j];
      }
    }
  }

  /** The directory indicators `docs/`, `documentation/` and `migrations/`
      are inert: documentation is detected only through a `readme.md` name,
      the database layer only through its three file names. */
  lemma DirectoryIndicatorsInert(entries: seq<FileEntry>)
    ensures Detected(entries, PatternTable[3]) <==>
      exists i :: 0 <= i < |entries| && entries[i].IsFile() && Contains(LowerName(entries[i]), "readme.md")
    ensures Detected(entries, PatternTable[5]) <==>
      exists i :: 0 <= i < |entries| && entries[i].IsFile() && Shows(LowerName(entries[i]), ["models.py", "schema.py", "db.py"])
  {
    var docs := PatternTable[3].indicators;
    var db := PatternTable[5].indicators;
    forall i | 0 <= i < |entries|
      ensures Shows(LowerName(entries[i]), docs) <==> Contains(LowerName(entries[i]), "readme.md")
      ensures Shows(LowerName(entries[i]), db) <==> Shows(LowerName(entries[i]), ["models.py", "schema.py", "db.py"])
    {
      var name := LowerName(entries[i]);
      assert docs[1][4] == '/' && docs[2][13] == '/' && db[2][10] == '/';
      SlashIndicatorInert(entries[i], docs[1]);
      SlashIndicatorInert(entries[i], docs[2]);
      SlashIndicatorInert(entries[i], db[2]);
      var short: seq<string> := ["models.py", "schema.py", "db.py"];
      assert Shows(name, db) <==> Shows(name, short) by {
        if Shows(name, db) {
          var k :| 0 <= k < |db| && Contains(name, db[k]);
          assert k != 2;
          assert Contains(name, short[if k < 2 then k else 2]);
        }
        if Shows(name, short) {
          var k :| 0 <= k < |short| && Contains(name, short[k]);
          assert Contains(name, db[if k < 2 then k else 3]);
        }
      }
      assert Shows(name, docs) <==> Contains(name, docs[0]) by {
        if Shows(name, docs) {
          var k :| 0 <= k < |docs| && Contains(name, docs[k]);
          assert k == 0;
        }
      }
    }
  }

  /** `dir_files`: the lower-cased names of the file entries, grouped by
      their parent directory. */
  function GroupOf(entries: seq<FileEntry>): map<string, set<string>> {
    if entries == [] then map[]
    else
      var g := GroupOf(entries[..|entries| - 1]);
      var e := entries[|entries| - 1];
      if !e.IsFile() then g
      else
        var parent := ParentText(e.path);
        g[parent := (if parent in g then g[parent] else {}) + {LowerName(e)}]
  }

  /** Every grouped name is the name of a file entry. */
  lemma {:induction false} GroupOfSound(entries: seq<FileEntry>, dir: string, f: string)
    requires dir in GroupOf(entries) && f in GroupOf(entries)[dir]
    ensures exists k :: 0 <= k < |entries| && entries[k].IsFile() && LowerName(entries[k]) == f
  {
    var n := |entries| - 1;
    var init := entries[..n];
    var g := GroupOf(init);
    if dir in g && f in g[dir] {
      GroupOfSound(init, dir, f);
      var k :| 0 <= k < |init| && init[k].IsFile() && LowerName(init[k]) == f;
      assert entries[k] == init[k];
    } else {
      assert entries[n].IsFile() && LowerName(entries[n]) == f;
    }
  }

  /** Every file entry's name is grouped under its parent. */
  lemma {:induction false} GroupOfComplete(entries: seq<FileEntry>, k: nat)
    requires k < |entries| && entries[k].IsFile()
    ensures ParentText(entries[k].path) in GroupOf(entries)
    ensures LowerName(entries[k]) in GroupOf(entries)[ParentText(entries[k].path)]
  {
    var n := |entries| - 1;
    if k < n {
      var init := entries[..n];
      assert init[k] == entries[k];
      GroupOfComplete(init, k);
    }
  }

  /** Grouping by directory does not change what is detected. */
  lemma GroupedDetection(entries: seq<FileEntry>, dirOrder: seq<string>, info: PatternInfo)
    requires forall dir :: dir in GroupOf(entries) <==> dir in dirOrder
    ensures (exists m :: 0 <= m < |dirOrder| && DirShows(GroupOf(entries)[dirOrder[m]], info.indicators))
            <==> Detected(entries, info)
  {
    var g := GroupOf(entries);
    if exists m :: 0 <= m < |dirOrder| && DirShows(g[dirOrder[m]], info.indicators) {
      var m :| 0 <= m < |dirOrder| && DirShows(g[dirOrder[m]], info.indicators);
      var f :| f in g[dirOrder[m]] && Shows(f, info.indicators);
      GroupOfSound(entries, dirOrder[m], f);
    }
    if Detected(entries, info) {
      var k :| 0 <= k < |entries| && entries[k].IsFile() && Shows(LowerName(entries[k]), info.indicators);
      GroupOfComplete(entries, k);
      var dir := ParentText(entries[k].path);
      var m :| 0 <= m < |dirOrder| && dirOrder[m] == dir;
      assert DirShows(g[dirOrder[m]], info.indicators);
    }
  }

  // ---------------------------------------------------------------------------
  // Distribution: extensions by count, descending, ties in insertion order

  predicate Descending(items: seq<(string, nat)>) {
    forall i, j :: 0 <= i < j < |items| ==> items[i].1 >= items[j].1
  }

  /** The items with count `c`, in order. */
  function WithCount(items: seq<(string, nat)>, c: nat): seq<(string, nat)> {
    if items == [] then []
    else (if items[0].1 == c then [items[0]] else []) + WithCount(items[1..], c)
  }

  /** Insertion after every item with at least the same count, so equal
      counts keep their order. */
  function InsertByCount(x: (string, nat), s: seq<(string, nat)>): (r: seq<(string, nat)>)
    ensures multiset(r) == multiset(s) + multiset{x}
    ensures |r| == |s| + 1
  {
    if s == [] then [x]
    else if s[0].1 >= x.1 then
      assert s == [s[0]] + s[1..];
      [s[0]] + InsertByCount(x, s[1..])
    else [x] + s
  }

  /** `sorted(items, key=count, reverse=True)`: Python's sort is stable, so
      each item is placed after the earlier ones of equal count. */
  function SortByCount(items: seq<(string, nat)>): (r: seq<(string, nat)>)
    ensures multiset(r) == multiset(items)
    ensures |r| == |items|
  {
    if items == [] then []
    else
      var n := |items| - 1;
      assert items == items[..n] + [items[n]];
      InsertByCount(items[n], SortByCount(items[..n]))
  }

  lemma PermutationMembers(r: seq<(string, nat)>, items: seq<(string, nat)>)
    requires multiset(r) == multiset(items)
    ensures forall i :: 0 <= i < |r| ==> r[i] in items
  {
    forall i | 0 <= i < |r| ensures r[i] in items {
      assert r[i] in multiset(r);
    }
  }

  lemma {:induction false} InsertByCountDescending(x: (string, nat), s: seq<(string, nat)>)
    requires Descending(s)
    ensures Descending(InsertByCount(x, s))
  {
    if s != [] && s[0].1 >= x.1 {
      var t := s[1..];
      InsertByCountDescending(x, t);
      var u := InsertByCount(x, t);
      var r := [s[0]] + u;
      forall j | 0 <= j < |u| ensures s[0].1 >= u[j].1 {
        assert u[j] in multiset(u);
        if u[j] != x {
          assert u[j] in multiset(t);
          var k :| 0 <= k < |t| && t[k] == u[j];
          assert s[k + 1] == t[k];
        }
      }
      forall i, j | 0 <= i < j < |r| ensures r[i].1 >= r[j].1 {
        if i > 0 {
          assert r[i] == u[i - 1] && r[j] == u[j - 1];
        } else {
          assert r[j] == u[j - 1];
        }
      }
    }
  }

  lemma {:induction false} SortByCountDescending(items: seq<(string, nat)>)
    ensures Descending(SortByCount(items))
  {
    if items != [] {
      var n := |items| - 1;
      SortByCountDescending(items[..n]);
      InsertByCountDescending(items[n], SortByCount(items[..n]));
    }
  }

  lemma {:induction false} WithCountAppend(a: seq<(string, nat)>, b: seq<(string, nat)>, c: nat)
    ensures WithCount(a + b, c) == WithCount(a, c) + WithCount(b, c)
  {
    if a != [] {
      assert (a + b)[1..] == a[1..] + b;
      WithCountAppend(a[1..], b, c);
    } else {
      assert a + b == b;
    }
  }

  /** A list whose counts are all below `c` has no item of count `c`. */
  lemma {:induction false} WithCountBelow(s: seq<(string, nat)>, c: nat)
    requires forall i :: 0 <= i < |s| ==> s[i].1 < c
    ensures WithCount(s, c) == []
  {
    if s != [] {
      WithCountBelow(s[1..], c);
    }
  }

  lemma WithCountCons(a: (string, nat), t: seq<(string, nat)>, c: nat)
    ensures WithCount([a] + t, c) == (if a.1 == c then [a] else []) + WithCount(t, c)
  {
    assert ([a] + t)[1..] == t;
  }

  lemma DescendingTail(s: seq<(string, nat)>)
    requires s != [] && Descending(s)
    ensures Descending(s[1..])
    ensures forall i :: 0 <= i < |s| ==> s[i].1 <= s[0].1
  {
    var t := s[1..];
    forall i, j | 0 <= i < j < |t| ensures t[i].1 >= t[j].1 {
      assert t[i] == s[i + 1] && t[j] == s[j + 1];
    }
  }

  /** Inserting adds the new item after the earlier items of its count. */
  lemma {:induction false} InsertByCountStable(x: (string, nat), s: seq<(string, nat)>, c: nat)
    requires Descending(s)
    ensures WithCount(InsertByCount(x, s), c) == WithCount(s, c) + (if x.1 == c then [x] else [])
  {
    if s == [] {
      WithCountCons(x, [], c);
    } else if s[0].1 >= x.1 {
      DescendingTail(s);
      InsertByCountStable(x, s[1..], c);
      WithCountCons(s[0], InsertByCount(x, s[1..]), c);
      WithCountCons(s[0], s[1..], c);
      assert [s[0]] + s[1..] == s;
    } else {
      DescendingTail(s);
      if x.1 == c {
        WithCountBelow(s, c);
      }
      WithCountCons(x, s, c);
    }
  }

  /** Items of equal count come out in the order they went in. */
  lemma {:induction false} SortByCountStable(items: seq<(string, nat)>, c: nat)
    ensures WithCount(SortByCount(items), c) == WithCount(items, c)
  {
    if items != [] {
      var n := |items| - 1;
      SortByCountStable(items[..n], c);
      SortByCountDescending(items[..n]);
      InsertByCountStable(items[n], SortByCount(items[..n]), c);
      WithCountAppend(items[..n], [items[n]], c);
      assert items[..n] + [items[n]] == items;
      assert WithCount([items[n]], c) == (if items[n].1 == c then [items[n]] else []) by {
        var one: seq<(string, nat)> := [items[n]];
        assert one[1..] == [];
      }
    }
  }

  // ---------------------------------------------------------------------------
  // The analyzer

  class ArchitectureAnalyzer {
    const entries: seq<FileEntry>
    const stats: CodebaseStats

    constructor (entries: seq<FileEntry>, stats: CodebaseStats)
      ensures this.entries == entries && this.stats == stats
    {
      this.entries := entries;
      this.stats := stats;
    }

    /** `_get_depth_distribution`: files per depth, ascending; `max_depth`
        becomes the deepest file's depth when there is a file. */
    method GetDepthDistribution() returns (dist: seq<(int, nat)>)
      modifies stats`maxDepth
      ensures DepthSpec(entries, dist)
      ensures FileCount(entries) == 0 ==> dist == [] && stats.maxDepth == old(stats.maxDepth)
      ensures FileCount(entries) > 0 ==> dist != [] && stats.maxDepth == dist[|dist| - 1].0
      ensures FileCount(entries) > 0 ==>
        FileCountAt(entries, stats.maxDepth) > 0 && forall d :: FileCountAt(entries, d) > 0 ==> d <= stats.maxDepth
    {
      var counts: map<int, nat> := map[];
      var order: seq<int> := [];
      for i := 0 to |entries|
        invariant Tallied(entries[..i], order, counts)
        invariant stats.maxDepth == old(stats.maxDepth)
      {
        TallyStep(entries, i, order, counts);
        var e := entries[i];
        if e.IsFile() {
          if e.depth !in counts {
            counts := counts[e.depth := 0];
            order := order + [e.depth];
          }
          counts := counts[e.depth := counts[e.depth] + 1];
        }
      }
      assert entries[..|entries|] == entries;
      assert Tallied(entries, order, counts);
      if order == [] {
        forall d ensures d !in counts {
          assert d !in order;
        }
        assert counts.Keys == {};
      } else {
        assert order[0] in order;
      }
      if counts != map[] {
        stats.maxDepth := MaxOf(order);
      }
      SortedTally(entries, order, counts);
      dist := SortByDepth(ItemsOf(order, counts));
      if order != [] {
        assert forall d :: FileCountAt(entries, d) > 0 ==> d in order;
      }
    }

    /** `_get_components`: `None` where `os.path.commonpath` raises. */
    method GetComponents() returns (r: Option<seq<Component>>)
      ensures entries == [] ==> r == Some([])
      ensures r.None? <==> Mixed(entries)
      ensures r.Some? && entries != [] ==> ComponentsSpec(entries, r.value)
    {
      if |entries| == 0 {
        return Some([]);
      }
      if Mixed(entries) {
        return None;
      }
      var root := Root(entries);
      var topDirs := TopDirs(root);
      var names := SortStrings(topDirs);
      var results := ComponentCounts(names);
      TopsOfMembers(entries, root);
      ComponentsFromTops(entries, topDirs, names, results);
      return Some(results);
    }

    /** The first loop of `_get_components`: the first part below the root
        of every path at least two parts below it, once each. */
    method TopDirs(root: seq<string>) returns (topDirs: seq<string>)
      ensures topDirs == TopsOf(entries, root)
    {
      topDirs := [];
      for i := 0 to |entries|
        invariant topDirs == TopsOf(entries[..i], root)
      {
        var parts := Segments(entries[i].path);
        TopsOfSnoc(entries, i, root);
        if |parts| > |root| + 1 {
          var top := parts[|root|];
          if top !in topDirs {
            topDirs := topDirs + [top];
          }
        }
      }
      assert entries[..|entries|] == entries;
    }

    /** The counting loop of `_get_components`: each name with the number of
        files whose path has it as a part. */
    method ComponentCounts(names: seq<string>) returns (results: seq<Component>)
      ensures |results| == |names|
      ensures forall m :: 0 <= m < |names| ==> results[m] == Component(names[m], FilesWithPart(entries, names[m]))
    {
      results := [];
      for j := 0 to |names|
        invariant |results| == j
        invariant forall m :: 0 <= m < j ==> results[m] == Component(names[m], FilesWithPart(entries, names[m]))
      {
        var count := FilesWithPart(entries, names[j]);
        results := results + [Component(names[j], count)];
      }
    }

    /** `_get_patterns`: files grouped by directory, each pattern checked
        against the directories, the hits sorted once each. */
    method GetPatterns() returns (r: seq<string>)
      ensures PatternsSpec(entries, r)
    {
      var dirFiles: map<string, set<string>> := map[];
      var dirOrder: seq<string> := [];
      for i := 0 to |entries|
        invariant dirFiles == GroupOf(entries[..i])
        invariant forall dir :: dir in dirFiles <==> dir in dirOrder
      {
        assert entries[..i + 1][..i] == entries[..i];
        var e := entries[i];
        if e.IsFile() {
          var parent := ParentText(e.path);
          var filename := LowerName(e);
          if parent !in dirFiles {
            dirFiles := dirFiles[parent := {}];
            dirOrder := dirOrder + [parent];
          }
          dirFiles := dirFiles[parent := dirFiles[parent] + {filename}];
        }
      }
      assert entries[..|entries|] == entries;
      var detected: seq<string> := [];
      for p := 0 to |PatternTable|
        invariant detected == DetectedDescriptions(PatternTable[..p], entries)
      {
        var info := PatternTable[p];
        assert PatternTable[..p + 1] == PatternTable[..p] + [info];
        GroupedDetection(entries, dirOrder, info);
        var found := AnyDirShows(dirFiles, dirOrder, info.indicators);
        if found {
          detected := detected + [info.description];
        }
      }
      assert PatternTable[..|PatternTable|] == PatternTable;
      r := SortStrings(Dedup(detected));
      SortedDetections(entries);
    }

    /** `_get_distribution`, its ordering part: the extension counts sorted
        by count, largest first. */
    function Distribution(): (r: seq<(string, nat)>)
      reads stats
      requires stats.Valid()
      ensures stats.filesByExt == map[] ==> r == []
      ensures forall i :: 0 <= i < |r| ==> r[i].0 in stats.filesByExt && r[i].1 == stats.filesByExt[r[i].0]
      ensures |r| == |stats.filesByExt|
      ensures Descending(r)
      ensures stats.filesByExt != map[] ==> multiset(r) == multiset(stats.Items())
      ensures stats.filesByExt != map[] ==> forall c :: WithCount(r, c) == WithCount(stats.Items(), c)
    {
      if stats.filesByExt == map[] then []
      else
        var items := stats.Items();
        assert stats.filesByExt.Keys == set x | x in stats.extOrder;
        DistinctSetSize(stats.extOrder);
        SortByCountDescending(items);
        StableForAll(items);
        var sorted := SortByCount(items);
        PermutationMembers(sorted, items);
        sorted
    }

    /** `analyze_data`: the depth distribution first (it sets `max_depth`),
        then components, distribution and patterns. */
    method AnalyzeData() returns (r: Option<Analysis>)
      requires stats.Valid()
      modifies stats`maxDepth
      ensures r.None? <==> Mixed(entries)
      ensures r.Some? ==>
        && DepthSpec(entries, r.value.depthDistribution)
        && (entries == [] ==> r.value.components == [])
        && (entries != [] ==> ComponentsSpec(entries, r.value.components))
        && r.value.distribution == Distribution()
        && PatternsSpec(entries, r.value.patterns)
        && r.value.maxDepth == stats.maxDepth
      ensures FileCount(entries) == 0 ==> stats.maxDepth == old(stats.maxDepth)
      ensures FileCount(entries) > 0 ==>
        FileCountAt(entries, stats.maxDepth) > 0 && forall d :: FileCountAt(entries, d) > 0 ==> d <= stats.maxDepth
    {
      var depthDist := GetDepthDistribution();
      var components := GetComponents();
      if components.None? {
        return None;
      }
      var distribution := Distribution();
      var patterns := GetPatterns();
      return Some(Analysis(components.value, distribution, patterns, stats.maxDepth, depthDist));
    }
  }

  /** Counting the sorted top directories one by one gives the components. */
  lemma ComponentsFromTops(entries: seq<FileEntry>, topDirs: seq<string>, names: seq<string>, cs: seq<Component>)
    requires entries != [] && Distinct(topDirs)
    requires forall n :: n in topDirs <==> IsTopDir(entries, Root(entries), n)
    requires names == SortStrings(topDirs) && |cs| == |names|
    requires forall m :: 0 <= m < |cs| ==> cs[m] == Component(names[m], FilesWithPart(entries, names[m]))
    ensures ComponentsSpec(entries, cs)
  {
    SortStringsSorted(topDirs);
    DistinctPermutation(topDirs, names);
    assert Names(cs) == names;
    forall n ensures n in names <==> n in topDirs {
      assert n in names <==> n in multiset(names);
    }
  }

  /** The inner loop of `_get_patterns`: the directories are scanned in
      order until one of them holds a file showing an indicator. */
  method AnyDirShows(dirFiles: map<string, set<string>>, dirOrder: seq<string>, indicators: seq<string>)
    returns (found: bool)
    requires forall dir :: dir in dirOrder ==> dir in dirFiles
    ensures found <==> exists m :: 0 <= m < |dirOrder| && DirShows(dirFiles[dirOrder[m]], indicators)
  {
    var j := 0;
    while j < |dirOrder|
      invariant 0 <= j <= |dirOrder|
      invariant forall m :: 0 <= m < j ==> !DirShows(dirFiles[dirOrder[m]], indicators)
    {
      if DirShows(dirFiles[dirOrder[j]], indicators) {
        return true;
      }
      j := j + 1;
    }
    return false;
  }

  /** The detected descriptions, deduplicated and sorted, are the patterns. */
  lemma SortedDetections(entries: seq<FileEntry>)
    ensures PatternsSpec(entries, SortStrings(Dedup(DetectedDescriptions(PatternTable, entries))))
  {
    var detected := DetectedDescriptions(PatternTable, entries);
    DetectedDescriptionsMembers(PatternTable, entries);
    var unique := Dedup(detected);
    var r := SortStrings(unique);
    SortStringsSorted(unique);
    DistinctPermutation(unique, r);
    forall d ensures d in r <==> d in unique {
      assert d in r <==> d in multiset(r);
    }
  }

  lemma StableForAll(items: seq<(string, nat)>)
    ensures forall c :: WithCount(SortByCount(items), c) == WithCount(items, c)
  {
    forall c ensures WithCount(SortByCount(items), c) == WithCount(items, c) {
      SortByCountStable(items, c);
    }
  }

  lemma DistinctSnoc(s: seq<string>, x: string)
    requires Distinct(s) && x !in s
    ensures Distinct(s + [x])
  {
    var t := s + [x];
    forall a, b | 0 <= a < b < |t| ensures t[a] != t[b] {
      if b < |s| {
        assert t[a] == s[a] && t[b] == s[b];
      } else {
        assert t[a] in s;
      }
    }
  }
}
