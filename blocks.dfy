/** Locating a file's fenced block in a snapshot document
    (src/code_assembler/rebuilder.py:42-58), and the document shape the
    snapshot writer produces (tests/test_rebuild.py:35-58).

    The search pattern is `#+ \`.*?{path}\`.*?\n\`\`\`[a-z0-9]*\n(.*?)\n\`\`\``
    with DOTALL. Its backtracking reduces to a chain of first occurrences:
    the header, the first fence line after it, and the first closing fence
    after that; a failure at any later step cannot be repaired by choosing a
    later header, because every later choice only sees later fences. */
module Blocks {
  import opened Strings
  import opened Metadata

  const Fence := "\n```"

  predicate IsLangChar(c: char) { IsLowerAlpha(c) || IsDigit(c) }

  /** The end of the `[a-z0-9]*` run that starts at `i`. */
  function LangEnd(doc: string, i: nat): (j: nat)
    requires i <= |doc|
    ensures i <= j <= |doc|
    ensures forall k :: i <= k < j ==> IsLangChar(doc[k])
    ensures j == |doc| || !IsLangChar(doc[j])
    decreases |doc| - i
  {
    if i < |doc| && IsLangChar(doc[i]) then LangEnd(doc, i + 1) else i
  }

  /** An opening fence line `\n```lang\n` starts at `f`. */
  predicate FenceAt(doc: string, f: nat) {
    OccursAt(doc, Fence, f) && LangEnd(doc, f + 4) < |doc| && doc[LangEnd(doc, f + 4)] == '\n'
  }

  /** The first opening fence line at or after `from`. */
  function FindFence(doc: string, from: nat): (r: Option<nat>)
    decreases |doc| - from
    ensures r.Some? ==> from <= r.value && FenceAt(doc, r.value)
    ensures r.Some? ==> forall f :: from <= f < r.value ==> !FenceAt(doc, f)
    ensures r.None? ==> forall f :: from <= f ==> !FenceAt(doc, f)
  {
    if from >= |doc| then None
    else if FenceAt(doc, from) then Some(from)
    else FindFence(doc, from + 1)
  }

  /** The lazy group after the fence line at `f`: everything up to the first
      closing `\n````. It is a piece of the document holding no `\n````. */
  function CaptureAfter(doc: string, f: nat): (r: Option<string>)
    requires FenceAt(doc, f)
  {
    var cs := LangEnd(doc, f + 4) + 1;
    match Find(doc, Fence, cs)
    case None => None
    case Some(c) => Some(doc[cs..c])
  }

  /** The capture is a piece of the document holding no `\n````: the lazy
      group stops at the first closing fence. */
  lemma CaptureIsPiece(doc: string, f: nat)
    requires FenceAt(doc, f)
    ensures var r := CaptureAfter(doc, f);
      r.Some? ==> Contains(doc, r.value) && !Contains(r.value, Fence)
  {
    var cs := LangEnd(doc, f + 4) + 1;
    if Find(doc, Fence, cs).Some? {
      var c := Find(doc, Fence, cs).value;
      SliceBeforeFind(doc, Fence, cs, c);
      assert OccursAt(doc, doc[cs..c], cs);
    }
  }

  /** The capture after the first fence line found, if any. */
  function CaptureAtFence(doc: string, f: Option<nat>): Option<string>
    requires f.Some? ==> FenceAt(doc, f.value)
  {
    match f
    case None => None
    case Some(f) => CaptureAfter(doc, f)
  }

  /** The block after a header that ends `n` characters past `h`. */
  function BlockAfter(doc: string, h: Option<nat>, n: nat): Option<string> {
    match h
    case None => None
    case Some(h) => CaptureAtFence(doc, FindFence(doc, h + n))
  }

  /** A header line naming exactly `path`. */
  function Header(path: string): string { "# `" + path + "`" }

  /** The block of `path`: the fenced block after the first header that
      names exactly `path`. */
  function FindBlock(doc: string, path: string): (r: Option<string>)
    ensures r.Some? ==> Contains(doc, Header(path))
    ensures r.Some? ==> Contains(doc, r.value) && !Contains(r.value, Fence)
  {
    var h := Find(doc, Header(path), 0);
    if h.None? then None
    else
      BlockAfterIsPiece(doc, h.value, |Header(path)|);
      BlockAfter(doc, h, |Header(path)|)
  }

  /** The block the pattern as written finds: after the first `# \`` of
      the document, the lazy `.*?` skips to the first `path\`` anywhere
      later, even inside another file's header or content. */
  function FindBlockAsWritten(doc: string, path: string): (r: Option<string>)
    ensures r.Some? ==> Contains(doc, "# `") && Contains(doc, path + "`")
    ensures r.Some? ==> Contains(doc, r.value) && !Contains(r.value, Fence)
  {
    match Find(doc, "# `", 0)
    case None => None
    case Some(h) =>
      var q := Find(doc, path + "`", h + 3);
      if q.None? then None
      else
        BlockAfterIsPiece(doc, q.value, |path| + 1);
        BlockAfter(doc, q, |path| + 1)
  }

  lemma AsWrittenAt(doc: string, path: string, h: nat, k: nat)
    requires Find(doc, "# `", 0) == Some(h)
    requires Find(doc, path + "`", h + 3) == Some(k)
    ensures FindBlockAsWritten(doc, path) == BlockAfter(doc, Some(k), |path| + 1)
  {
  }

  lemma BlockAfterFence(doc: string, h: nat, n: nat, f: nat)
    requires FindFence(doc, h + n) == Some(f)
    ensures BlockAfter(doc, Some(h), n) == CaptureAfter(doc, f)
  {
  }

  lemma FindBlockAtHeader(doc: string, path: string, h: nat)
    requires Find(doc, Header(path), 0) == Some(h)
    ensures FindBlock(doc, path) == BlockAfter(doc, Some(h), |Header(path)|)
  {
  }

  lemma BlockAfterIsPiece(doc: string, h: nat, n: nat)
    ensures var r := BlockAfter(doc, Some(h), n);
      r.Some? ==> Contains(doc, r.value) && !Contains(r.value, Fence)
  {
    var f := FindFence(doc, h + n);
    if f.Some? {
      BlockAfterFence(doc, h, n, f.value);
      CaptureIsPiece(doc, f.value);
    }
  }

  // ---------------------------------------------------------------------------
  // The document the snapshot writer produces

  /** One file block: the lines "# `path`\n", "```python", content, "```\n". */
  function Block(path: string, content: string): string {
    Header(path) + Fenced(content)
  }

  /** The fenced part of a block, below its header. */
  function Fenced(content: string): string {
    "\n\n```python\n" + content + "\n```\n"
  }

  lemma Regroup(a: string, b: string, c: string, d: string)
    ensures a + (b + c) + d == (a + b) + (c + d)
  {
  }

  lemma RegroupDocument(p: string, x: string, b: string, n: string, y: string, m: string)
    ensures p + (x + b + n + y) + m == (p + x) + b + (n + y + m)
  {
  }

  function TocText(keys: seq<string>): string {
    if keys == [] then "" else "- `" + keys[0] + "` | 2026-02-17 10:00" + "\n" + TocText(keys[1..])
  }

  function BlocksText(files: seq<(string, string)>): string {
    if files == [] then "" else Block(files[0].0, files[0].1) + "\n" + BlocksText(files[1..])
  }

  function Preamble(keys: seq<string>): string {
    "# Consolidated Codebase\n" + "\n" + "## Table of Contents\n" + "\n" + TocText(keys) + "\n---\n" + "\n"
  }

  /** The snapshot as `"\n".join(lines)` spells it out: title, table of
      contents, one block per file, the metadata block. */
  function Document(keys: seq<string>, files: seq<(string, string)>, json: string): string {
    Preamble(keys) + BlocksText(files) + MetadataBlock(json)
  }

  lemma {:induction false} BlocksTextSplit(files: seq<(string, string)>, j: nat)
    requires j < |files|
    ensures BlocksText(files) == BlocksText(files[..j]) + Block(files[j].0, files[j].1) + "\n" + BlocksText(files[j + 1..])
  {
    if j > 0 {
      var first := Block(files[0].0, files[0].1) + "\n";
      BlocksTextSplit(files[1..], j - 1);
      assert files[1..][..j - 1] == files[1..j] == files[..j][1..];
      assert files[1..][j - 1 + 1..] == files[j + 1..];
      Regroup5(first, BlocksText(files[1..j]), Block(files[j].0, files[j].1), "\n", BlocksText(files[j + 1..]));
    }
  }

  lemma Regroup5(a: string, x: string, b: string, n: string, y: string)
    ensures a + (x + b + n + y) == (a + x) + b + n + y
  {
  }

  // ---------------------------------------------------------------------------
  // Finding a block the writer produced

  /** What the fenced part of a block starting at `e` looks like character
      by character, as far as the search is concerned. */
  predicate FenceShape(doc: string, e: nat, content: string) {
    && e + 12 + |content| + 4 <= |doc|
    && doc[e] == '\n' && doc[e + 1] == '\n'
    && OccursAt(doc, Fence, e + 1)
    && doc[e + 5..e + 11] == "python" && doc[e + 11] == '\n'
    && doc[e + 12..e + 12 + |content|] == content
    && OccursAt(doc, Fence, e + 12 + |content|)
  }

  /** The same for a whole block whose header starts at `h`. */
  predicate BlockShape(doc: string, h: nat, path: string, content: string) {
    FenceShape(doc, h + |Header(path)|, content)
  }

  /** A block placed after `pre` has that shape. */
  lemma BlockLayout(doc: string, pre: string, path: string, content: string, post: string)
    requires doc == pre + Block(path, content) + post
    ensures BlockShape(doc, |pre|, path, content)
  {
    var e := |pre| + |Header(path)|;
    Regroup(pre, Header(path), Fenced(content), post);
    assert doc[e..] == Fenced(content) + post;
    FencedShape(content, post);
    FenceShapeShift(doc, e, content);
  }

  /** The fenced part of a block, whatever follows it, has the shape. */
  lemma FencedShape(content: string, post: string)
    ensures FenceShape(Fenced(content) + post, 0, content)
  {
    var open, close := "\n\n```python\n", "\n```\n";
    var t := Fenced(content) + post;
    assert t == open + (content + (close + post));
    assert t[..12] == open;
    assert t[12..] == content + (close + post);
    assert t[12 + |content|..] == close + post;
    assert t[1..5] == open[1..5] == Fence;
    assert t[5..11] == open[5..11] == "python";
    assert t[12..12 + |content|] == content;
    assert t[12 + |content|..16 + |content|] == (close + post)[..4] == Fence;
  }

  /** The shape read in a suffix holds at the suffix's offset. */
  lemma FenceShapeShift(doc: string, e: nat, content: string)
    requires e <= |doc| && FenceShape(doc[e..], 0, content)
    ensures FenceShape(doc, e, content)
  {
    var t, c := doc[e..], 12 + |content|;
    assert t[1..5] == doc[e + 1..e + 5];
    assert t[5..11] == doc[e + 5..e + 11];
    assert t[12..c] == doc[e + 12..e + c];
    assert t[c..c + 4] == doc[e + c..e + c + 4];
  }

  /** The fence line right after the header is the first one. */
  lemma FenceAfterHeader(doc: string, e: nat)
    requires e + 12 <= |doc| && doc[e] == '\n' && doc[e + 1] == '\n'
    requires OccursAt(doc, Fence, e + 1) && doc[e + 5..e + 11] == "python" && doc[e + 11] == '\n'
    ensures FindFence(doc, e) == Some(e + 1)
    ensures LangEnd(doc, e + 5) == e + 11
  {
    assert !FenceAt(doc, e) by {
      assert doc[e + 1] != Fence[1];
    }
    var k := e + 5;
    while k < e + 11
      invariant e + 5 <= k <= e + 11
      invariant LangEnd(doc, e + 5) == LangEnd(doc, k)
    {
      assert doc[k] == "python"[k - (e + 5)];
      k := k + 1;
    }
  }

  /** The closing fence right after the content is the first one. */
  lemma ClosingAfterContent(doc: string, cs: nat, content: string)
    requires !Contains(content, Fence)
    requires cs + |content| <= |doc| && doc[cs..cs + |content|] == content
    requires OccursAt(doc, Fence, cs + |content|)
    ensures Find(doc, Fence, cs) == Some(cs + |content|)
  {
    var c := cs + |content|;
    forall k | cs <= k < c ensures !OccursAt(doc, Fence, k) {
      if k + 4 <= c {
        SubSlice(doc, cs, c, k - cs, k - cs + 4);
        assert !OccursAt(content, Fence, k - cs);
      } else {
        assert doc[c] == '\n' && Fence[c - k] == '`';
        assert k + 4 > |doc| || doc[k..k + 4][c - k] != Fence[c - k];
      }
    }
    FindFirst(doc, Fence, cs, c);
  }

  /** An occurrence with none before it from `from` on is what Find returns. */
  lemma {:induction false} FindFirst(s: string, p: string, from: nat, c: nat)
    requires from <= c && OccursAt(s, p, c)
    requires forall k :: from <= k < c ==> !OccursAt(s, p, k)
    ensures Find(s, p, from) == Some(c)
    decreases c - from
  {
    if from < c {
      FindFirst(s, p, from + 1, c);
    }
  }

  lemma HeaderFoundIn(a: string, h: string, t: string)
    requires Find(a + h, h, 0) == Some(|a|)
    ensures Find(a + h + t, h, 0) == Some(|a|)
  {
    FindExtend(a + h, t, h, 0);
  }

  /** A block whose header is the first to name its path, and whose content
      holds no `\n````, is found and given back verbatim. */
  lemma FindBlockOfBlock(pre: string, path: string, content: string, post: string)
    requires Find(pre + Header(path), Header(path), 0) == Some(|pre|)
    requires !Contains(content, Fence)
    ensures FindBlock(pre + Block(path, content) + post, path) == Some(content)
  {
    var doc := pre + Block(path, content) + post;
    var tail := Fenced(content) + post;
    Regroup(pre, Header(path), Fenced(content), post);
    HeaderFoundIn(pre, Header(path), tail);
    BlockLayout(doc, pre, path, content, post);
    FoundAfterHeader(doc, |pre|, path, content);
  }

  /** The search steps, once the layout of the block at `h` is known. */
  lemma FoundAfterHeader(doc: string, h: nat, path: string, content: string)
    requires BlockShape(doc, h, path, content)
    requires Find(doc, Header(path), 0) == Some(h)
    requires !Contains(content, Fence)
    ensures FindBlock(doc, path) == Some(content)
  {
    FindBlockAtHeader(doc, path, h);
    BlockAfterShape(doc, h, |Header(path)|, content);
  }

  /** After a header ending `n` past `h`, a fenced part of that shape gives
      back its content. */
  lemma BlockAfterShape(doc: string, h: nat, n: nat, content: string)
    requires FenceShape(doc, h + n, content)
    requires !Contains(content, Fence)
    ensures BlockAfter(doc, Some(h), n) == Some(content)
  {
    var e := h + n;
    FenceAfterHeader(doc, e);
    ClosingAfterContent(doc, e + 12, content);
    CaptureIs(doc, e + 1, content);
    BlockAfterFence(doc, h, n, e + 1);
  }

  /** The group captured after the fence line at `f`. */
  lemma CaptureIs(doc: string, f: nat, content: string)
    requires f + 11 + |content| <= |doc|
    requires FenceAt(doc, f) && LangEnd(doc, f + 4) == f + 10
    requires Find(doc, Fence, f + 11) == Some(f + 11 + |content|)
    requires doc[f + 11..f + 11 + |content|] == content
    ensures CaptureAfter(doc, f) == Some(content)
  {
  }

  /** In a document built by the writer, file `j` is rebuilt from its own
      block when its header is the first to name its path. */
  lemma DocumentBlockFound(keys: seq<string>, files: seq<(string, string)>, json: string, j: nat)
    requires j < |files|
    requires var pre := Preamble(keys) + BlocksText(files[..j]);
      Find(pre + Header(files[j].0), Header(files[j].0), 0) == Some(|pre|)
    requires !Contains(files[j].1, Fence)
    ensures FindBlock(Document(keys, files, json), files[j].0) == Some(files[j].1)
  {
    var pre := Preamble(keys) + BlocksText(files[..j]);
    var post := "\n" + BlocksText(files[j + 1..]) + MetadataBlock(json);
    BlocksTextSplit(files, j);
    RegroupDocument(Preamble(keys), BlocksText(files[..j]), Block(files[j].0, files[j].1), "\n",
                    BlocksText(files[j + 1..]), MetadataBlock(json));
    FindBlockOfBlock(pre, files[j].0, files[j].1, post);
  }

  // ---------------------------------------------------------------------------
  // The lazy prefix: a file named like the tail of an earlier one

  /** With a block for `s/m` before the block for `m`, the pattern as written
      gives `m` the content of `s/m`; the corrected finder gives its own. */
  lemma AsWrittenTakesEarlierSuffix(a: string, b: string)
    requires '#' !in a && !Contains(a, Fence) && !Contains(b, Fence)
    ensures var doc := Block("s/m", a) + "\n" + Block("m", b);
      FindBlockAsWritten(doc, "m") == Some(a) && FindBlock(doc, "m") == Some(b)
  {
    var rest := "\n" + Block("m", b);
    assert Block("s/m", a) + "\n" + Block("m", b) == Block("s/m", a) + rest;
    AsWrittenOpening(a, rest);
    HeaderFirstAfter(a);
    var doc := Block("s/m", a) + "\n" + Block("m", b);
    FindBlockOfBlock(Block("s/m", a) + "\n", "m", b, "");
    assert doc + "" == doc;
  }

  /** Whatever follows, a document opening with the block of `s/m` gives
      `m` that block's content under the pattern as written. */
  lemma AsWrittenOpening(a: string, rest: string)
    requires !Contains(a, Fence)
    ensures FindBlockAsWritten(Block("s/m", a) + rest, "m") == Some(a)
  {
    var doc := Block("s/m", a) + rest;
    Regroup("", Block("s/m", a), rest, "");
    BlockLayout(doc, "", "s/m", a, rest);
    HeaderPrefix("s/m", Fenced(a) + rest);
    Regroup("", Header("s/m"), Fenced(a), rest);
    AsWrittenSteps(doc, a);
  }

  lemma HeaderPrefix(path: string, t: string)
    ensures (Header(path) + t)[..|Header(path)|] == Header(path)
  {
  }

  /** The pattern as written on a document opening with the block of `s/m`:
      the first `# \`` is at 0 and the first "m`" after it at 5, inside
      that header. */
  lemma AsWrittenSteps(doc: string, a: string)
    requires 7 <= |doc| && doc[..7] == "# `s/m`"
    requires BlockShape(doc, 0, "s/m", a)
    requires !Contains(a, Fence)
    ensures FindBlockAsWritten(doc, "m") == Some(a)
  {
    assert doc[0] == '#' && doc[1] == ' ' && doc[2] == '`' && doc[3] == 's' && doc[4] == '/';
    assert doc[5] == 'm' && doc[6] == '`';
    assert OccursAt(doc, "# `", 0);
    assert Find(doc, "# `", 0) == Some(0);
    var p := "m" + "`";
    assert |p| == 2 && p[0] == 'm' && p[1] == '`';
    assert OccursAt(doc, p, 5);
    FindFirst(doc, p, 3, 5);
    AsWrittenAt(doc, "m", 0, 5);
    BlockAfterShape(doc, 5, 2, a);
  }

  /** No `# \`m\`` occurs before the header of the second block. */
  lemma HeaderFirstAfter(a: string)
    requires '#' !in a
    ensures var first := Block("s/m", a) + "\n";
      Find(first + Header("m"), Header("m"), 0) == Some(|first|)
  {
    var first := Block("s/m", a) + "\n";
    var h := Header("m");
    var s := first + h;
    forall k | 0 <= k < |first| ensures !OccursAt(s, h, k) {
      if k == 0 {
        assert s[3] == 's' && h[3] == 'm';
        assert k + |h| > |s| || s[k..k + |h|][3] != h[3];
      } else {
        HashOnlyAtStart(a, k);
        assert k + |h| > |s| || s[k..k + |h|][0] != h[0];
      }
    }
    assert OccursAt(s, h, |first|);
    FindFirst(s, h, 0, |first|);
  }

  /** In the block for `s/m` followed by a newline, `#` opens the header
      only. */
  lemma HashOnlyAtStart(a: string, k: nat)
    requires '#' !in a && 0 < k
    ensures var s := Block("s/m", a) + "\n" + Header("m");
      k < |Block("s/m", a) + "\n"| ==> s[k] != '#'
  {
    var s := Block("s/m", a) + "\n" + Header("m");
    var n := |Header("s/m")|;
    if k < |Block("s/m", a) + "\n"| {
      assert s == Header("s/m") + "\n\n```python\n" + a + "\n```\n" + "\n" + Header("m");
      if k >= 19 && k < 19 + |a| {
        assert s[k] == a[k - 19];
      }
    }
  }
}
