/** Path and number helpers (src/code_assembler/utils.py): the string step of
    path normalisation, anchor slugs, the exclusion test, the token estimate
    and thousands separators. pathlib's own rendering of a path (and
    `resolve()` for a relative one) belongs to the host and is a parameter. */
module Utils {
  import opened Strings

  /** `str(p)` for `p = Path(path)`, resolved against the working directory
      when relative; supplied by the host. */
  type PathText = string -> string

  // ---------------------------------------------------------------------------
  // normalize_path

  /** The string step of `normalize_path`: backslashes become slashes, the
      text is lower-cased and trailing slashes are dropped. */
  function NormalizeText(s: string): (r: string)
    ensures '\\' !in r
    ensures forall i :: 0 <= i < |r| ==> !IsUpper(r[i])
    ensures r == [] || r[|r| - 1] != '/'
  {
    var t := Lower(ReplaceChar(s, '\\', '/'));
    var r := RStrip(t, '/');
    assert forall i :: 0 <= i < |r| ==> r[i] == t[i];
    r
  }

  /** `normalize_path`: the empty path stays empty; anything else is the
      host's rendering of the path, normalised. */
  function NormalizePath(path: string, pathText: PathText): (r: string)
    ensures path == "" ==> r == ""
    ensures '\\' !in r
    ensures forall i :: 0 <= i < |r| ==> !IsUpper(r[i])
    ensures r == [] || r[|r| - 1] != '/'
  {
    if path == "" then "" else NormalizeText(pathText(path))
  }

  lemma ReplaceAbsent(s: string, a: char, b: char)
    requires a !in s
    ensures ReplaceChar(s, a, b) == s
  {
  }

  lemma LowerOfLower(s: string)
    requires forall i :: 0 <= i < |s| ==> !IsUpper(s[i])
    ensures Lower(s) == s
  {
  }

  /** Normalising a normalised path changes nothing. */
  lemma NormalizeTextIdempotent(s: string)
    ensures NormalizeText(NormalizeText(s)) == NormalizeText(s)
  {
    var r := NormalizeText(s);
    ReplaceAbsent(r, '\\', '/');
    LowerOfLower(r);
    assert RStrip(r, '/') == r;
  }

  // ---------------------------------------------------------------------------
  // slugify_path

  predicate IsSlugChar(c: char) {
    IsLowerAlpha(c) || IsDigit(c) || c == '_'
  }

  /** `slugify_path`: every character outside `[a-zA-Z0-9]` becomes `_`,
      then the text is lower-cased. */
  function Slugify(path: string): (r: string)
    ensures |r| == |path|
    ensures forall i :: 0 <= i < |r| ==> IsSlugChar(r[i])
    ensures forall i :: 0 <= i < |r| ==> (r[i] == '_' <==> !IsAlnum(path[i]) || path[i] == '_')
    ensures forall i :: 0 <= i < |r| && IsAlnum(path[i]) ==> r[i] == LowerChar(path[i])
  {
    var subbed := seq(|path|, i requires 0 <= i < |path| => if IsAlnum(path[i]) then path[i] else '_');
    Lower(subbed)
  }

  /** A slug is its own slug. */
  lemma SlugifyIdempotent(path: string)
    ensures Slugify(Slugify(path)) == Slugify(path)
  {
    var r := Slugify(path);
    forall i | 0 <= i < |r| ensures Slugify(r)[i] == r[i] {
      assert IsSlugChar(r[i]);
    }
  }

  /** Paths that differ only in letter case get the same slug. */
  lemma SlugifyCaseBlind(path: string)
    ensures Slugify(Lower(path)) == Slugify(path)
  {
    var l := Lower(path);
    forall i | 0 <= i < |path| ensures Slugify(l)[i] == Slugify(path)[i] {
      assert l[i] == LowerChar(path[i]);
      assert IsAlnum(l[i]) <==> IsAlnum(path[i]);
    }
  }

  // ---------------------------------------------------------------------------
  // should_exclude

  /** The non-empty `/`-separated parts of a text, as the set comprehension
      over `split("/")` collects them. */
  function Parts(s: string): (r: seq<string>)
    ensures forall x :: x in r <==> x in Split(s, '/') && x != ""
  {
    NonEmpty(Split(s, '/'))
  }

  function NonEmpty(pieces: seq<string>): (r: seq<string>)
    ensures forall x :: x in r <==> x in pieces && x != ""
  {
    if |pieces| == 0 then []
    else if pieces[0] == "" then NonEmpty(pieces[1..])
    else [pieces[0]] + NonEmpty(pieces[1..])
  }

  /** A pattern with neither kind of slash is matched against single parts. */
  predicate IsSimple(pattern: string) {
    '/' !in pattern && '\\' !in pattern
  }

  /** A part is caught by a lower-cased simple pattern when it starts or ends
      with it (equality being the case of both). */
  predicate PartCaught(part: string, lowered: string) {
    StartsWith(part, lowered) || EndsWith(part, lowered)
  }

  /** One pattern against an already normalised path. */
  predicate Hits(pathNorm: string, pattern: string, pathText: PathText) {
    && pattern != ""
    && if IsSimple(pattern) then
         exists part :: part in Parts(pathNorm) && PartCaught(part, Lower(pattern))
       else
         var patternNorm := NormalizePath(pattern, pathText);
         pathNorm == patternNorm || StartsWith(pathNorm, patternNorm + "/")
  }

  /** The meaning of `should_exclude`: some pattern of the list hits the path. */
  predicate Excluded(path: string, patterns: seq<string>, pathText: PathText) {
    exists k :: 0 <= k < |patterns| && Hits(NormalizePath(path, pathText), patterns[k], pathText)
  }

  /** `should_exclude`, with its early exits. */
  method ShouldExclude(path: string, patterns: seq<string>, pathText: PathText) returns (excluded: bool)
    ensures excluded <==> Excluded(path, patterns, pathText)
    ensures patterns == [] ==> !excluded
  {
    if |patterns| == 0 {
      return false;
    }
    var pathNorm := NormalizePath(path, pathText);
    var parts := Parts(pathNorm);
    for i := 0 to |patterns|
      invariant forall k :: 0 <= k < i ==> !Hits(pathNorm, patterns[k], pathText)
    {
      var pattern := patterns[i];
      if pattern == "" {
        continue;
      }
      if IsSimple(pattern) {
        var lowered := Lower(pattern);
        if lowered in parts {
          assert PartCaught(lowered, lowered);
          return true;
        }
        for j := 0 to |parts|
          invariant forall m :: 0 <= m < j ==> !PartCaught(parts[m], lowered)
        {
          if StartsWith(parts[j], lowered) || EndsWith(parts[j], lowered) {
            assert parts[j] in Parts(pathNorm) && PartCaught(parts[j], Lower(pattern));
            return true;
          }
        }
      } else {
        var patternNorm := NormalizePath(pattern, pathText);
        if pathNorm == patternNorm {
          return true;
        }
        if StartsWith(pathNorm, patternNorm + "/") {
          return true;
        }
      }
    }
    return false;
  }

  /** Empty patterns are ignored: adding one changes no verdict. */
  lemma EmptyPatternIgnored(path: string, patterns: seq<string>, pathText: PathText)
    ensures Excluded(path, patterns + [""], pathText) <==> Excluded(path, patterns, pathText)
  {
    var ps := patterns + [""];
    var n := NormalizePath(path, pathText);
    if Excluded(path, ps, pathText) {
      var k :| 0 <= k < |ps| && Hits(n, ps[k], pathText);
      assert k < |patterns| && patterns[k] == ps[k];
    }
    if Excluded(path, patterns, pathText) {
      var k :| 0 <= k < |patterns| && Hits(n, patterns[k], pathText);
      assert ps[k] == patterns[k];
    }
  }

  /** The verdict for a list of patterns is the disjunction of the verdicts
      for its two halves, so pattern order does not matter. */
  lemma ExcludedSplit(path: string, ps: seq<string>, qs: seq<string>, pathText: PathText)
    ensures Excluded(path, ps + qs, pathText) <==> Excluded(path, ps, pathText) || Excluded(path, qs, pathText)
  {
    var n := NormalizePath(path, pathText);
    var all := ps + qs;
    if Excluded(path, all, pathText) {
      var k :| 0 <= k < |all| && Hits(n, all[k], pathText);
      if k < |ps| {
        assert all[k] == ps[k];
      } else {
        assert all[k] == qs[k - |ps|];
      }
    }
    if Excluded(path, ps, pathText) {
      var k :| 0 <= k < |ps| && Hits(n, ps[k], pathText);
      assert all[k] == ps[k];
    }
    if Excluded(path, qs, pathText) {
      var k :| 0 <= k < |qs| && Hits(n, qs[k], pathText);
      assert all[|ps| + k] == qs[k];
    }
  }

  /** Simple patterns are case-blind: a pattern and its lower-case form hit
      the same paths. */
  lemma SimplePatternCaseBlind(pathNorm: string, pattern: string, pathText: PathText)
    requires IsSimple(pattern)
    ensures Hits(pathNorm, Lower(pattern), pathText) <==> Hits(pathNorm, pattern, pathText)
  {
    var l := Lower(pattern);
    LowerOfLower(l);
    assert '/' !in l && '\\' !in l by {
      forall i | 0 <= i < |l| ensures l[i] != '/' && l[i] != '\\' {
        assert pattern[i] != '/' && pattern[i] != '\\';
      }
    }
    assert l == "" <==> pattern == "";
  }

  /** A simple pattern catches every part that begins with it, not only the
      part equal to it: `env` excludes `src/environment.py`. */
  lemma PrefixPartCaught(pathNorm: string, dir: string, part: string, pattern: string, pathText: PathText)
    requires pathNorm == dir + "/" + part && part != "" && '/' !in part
    requires IsSimple(pattern) && pattern != "" && StartsWith(part, Lower(pattern))
    ensures Hits(pathNorm, pattern, pathText)
  {
    SplitAppend(dir, part, '/');
    SplitNone(part, '/');
    assert part in Split(pathNorm, '/');
    assert PartCaught(part, Lower(pattern));
  }

  // ---------------------------------------------------------------------------
  // estimate_tokens and format_number

  const CharsPerToken := 4

  /** `estimate_tokens`: the whole number of four-character tokens. */
  function EstimateTokens(text: string): (r: nat)
    ensures r * CharsPerToken <= |text| < (r + 1) * CharsPerToken
  {
    |text| / CharsPerToken
  }

  /** Commas inserted every three digits from the right. */
  function Group(digits: string): (r: string)
    requires |digits| >= 1 && ',' !in digits
    ensures |r| == |digits| + (|digits| - 1) / 3
    ensures r[0] == digits[0]
    decreases |digits|
  {
    if |digits| <= 3 then digits
    else
      var head := Group(digits[..|digits| - 3]);
      var tail := digits[|digits| - 3..];
      assert forall c :: c in tail ==> c in digits;
      head + "," + tail
  }

  /** Commas stand exactly at every fourth place counted from the right. */
  predicate EveryFourth(r: string) {
    forall i :: 0 <= i < |r| ==> (r[i] == ',' <==> (|r| - i) % 4 == 0)
  }

  lemma {:induction false} GroupCommas(digits: string)
    requires |digits| >= 1 && ',' !in digits
    ensures EveryFourth(Group(digits))
    decreases |digits|
  {
    var r := Group(digits);
    if |digits| > 3 {
      var h, tail := digits[..|digits| - 3], digits[|digits| - 3..];
      assert forall c :: c in h ==> c in digits;
      GroupCommas(h);
      var head := Group(h);
      assert r == head + "," + tail;
      forall i | 0 <= i < |r| ensures r[i] == ',' <==> (|r| - i) % 4 == 0 {
        if i < |head| {
          assert r[i] == head[i];
          assert head[i] == ',' <==> (|head| - i) % 4 == 0;
          assert |r| - i == (|head| - i) + 4;
          assert (|r| - i) % 4 == (|head| - i) % 4;
        } else if i == |head| {
          assert r[i] == ',' && |r| - i == 4;
        } else {
          assert 1 <= |r| - i <= 3;
          assert r[i] == tail[i - |head| - 1] == digits[|digits| - 3 + (i - |head| - 1)];
        }
      }
    } else {
      forall i | 0 <= i < |r| ensures r[i] != ',' {
        assert r[i] == digits[i];
      }
    }
  }

  /** `format_number`: `f"{num:,}"` for an integer. */
  function FormatNumber(num: int): (r: string)
    ensures num < 0 <==> (|r| > 0 && r[0] == '-')
  {
    var n: nat := if num < 0 then -num else num;
    DecimalHasNoComma(n);
    var grouped := Group(DecimalString(n));
    assert IsDigit(grouped[0]);
    if num < 0 then "-" + grouped else grouped
  }

  /** The text with its commas removed. */
  function StripCommas(s: string): (r: string)
    ensures ',' !in r
  {
    if |s| == 0 then ""
    else (if s[0] == ',' then "" else [s[0]]) + StripCommas(s[1..])
  }

  lemma {:induction false} StripCommasConcat(a: string, b: string)
    ensures StripCommas(a + b) == StripCommas(a) + StripCommas(b)
    decreases |a|
  {
    if |a| > 0 {
      assert (a + b)[1..] == a[1..] + b;
      StripCommasConcat(a[1..], b);
    } else {
      assert a + b == b;
    }
  }

  lemma {:induction false} StripCommasNone(s: string)
    requires ',' !in s
    ensures StripCommas(s) == s
  {
    if |s| > 0 {
      StripCommasNone(s[1..]);
    }
  }

  lemma {:induction false} StripAroundComma(h: string, t: string)
    requires ',' !in t
    ensures StripCommas(h + "," + t) == StripCommas(h) + t
  {
    var comma: string := ",";
    assert comma[1..] == "";
    assert StripCommas(comma) == "";
    StripCommasConcat(h + comma, t);
    StripCommasConcat(h, comma);
    StripCommasNone(t);
  }

  /** Removing the separators from a grouped number gives the digits back. */
  lemma {:induction false} StripGroup(digits: string)
    requires |digits| >= 1 && ',' !in digits
    ensures StripCommas(Group(digits)) == digits
    decreases |digits|
  {
    if |digits| <= 3 {
      StripCommasNone(digits);
    } else {
      var head, tail := digits[..|digits| - 3], digits[|digits| - 3..];
      assert forall c :: c in head ==> c in digits;
      assert forall c :: c in tail ==> c in digits;
      StripGroup(head);
      StripAroundComma(Group(head), tail);
      assert head + tail == digits;
    }
  }

  lemma DecimalHasNoComma(n: nat)
    ensures ',' !in DecimalString(n)
  {
    var d := DecimalString(n);
    forall i | 0 <= i < |d| ensures d[i] != ',' {
      assert IsDigit(d[i]);
    }
  }

  /** `format_number` round trip: without its commas the text is `str(num)`. */
  lemma FormatNumberDigits(num: int)
    ensures StripCommas(FormatNumber(num)) == IntString(num)
  {
    var n: nat := if num < 0 then -num else num;
    DecimalHasNoComma(n);
    StripGroup(DecimalString(n));
    if num < 0 {
      StripCommasConcat("-", Group(DecimalString(n)));
    }
  }
}
