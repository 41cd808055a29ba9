/** The hidden metadata block of a Markdown snapshot and its reading by the
    delta engine (src/code_assembler/delta.py:31-52).

    The block is `<!-- CODE_ASSEMBLER_METADATA <json> -->`; the JSON object's
    `files` member maps a relative path to a "YYYY-MM-DD HH:MM" stamp.  The
    JSON decoder itself is a parameter (`decode`), returning None where
    `json.loads` raises; the object it returns keeps its members as the raw
    list of pairs the text spells out, and Python's dict rules (a repeated key
    keeps its first position and its last value) are applied here. */
module Metadata {
  import opened Strings

  datatype Json =
    | JNull
    | JBool(b: bool)
    | JNumber
    | JString(s: string)
    | JArray(items: seq<Json>)
    | JObject(members: seq<(string, Json)>)

  type Decoder = string -> Option<Json>

  // ---------------------------------------------------------------------------
  // Python dict semantics over a list of pairs

  /** `d[k]` / `d.get(k)`: the value of the last pair with key `k`. */
  function Lookup(pairs: seq<(string, Json)>, k: string): (r: Option<Json>)
    ensures r.None? <==> forall i :: 0 <= i < |pairs| ==> pairs[i].0 != k
    ensures r.Some? ==>
      exists i :: 0 <= i < |pairs| && pairs[i] == (k, r.value) && forall j :: i < j < |pairs| ==> pairs[j].0 != k
  {
    if |pairs| == 0 then None
    else if pairs[|pairs| - 1].0 == k then Some(pairs[|pairs| - 1].1)
    else Lookup(pairs[..|pairs| - 1], k)
  }

  /** The keys of the dict built from `pairs`, in insertion order. */
  function DictKeys(pairs: seq<(string, Json)>): (r: seq<string>)
    ensures forall i, j :: 0 <= i < j < |r| ==> r[i] != r[j]
    ensures forall k :: k in r <==> exists i :: 0 <= i < |pairs| && pairs[i].0 == k
    // first-occurrence order: an earlier key occurs before any pair of a later one
    ensures forall i, j :: 0 <= i < j < |r| ==>
      exists p :: 0 <= p < |pairs| && pairs[p].0 == r[i] && forall q :: 0 <= q <= p ==> pairs[q].0 != r[j]
  {
    if |pairs| == 0 then []
    else
      var init := pairs[..|pairs| - 1];
      var rest := DictKeys(init);
      var k := pairs[|pairs| - 1].0;
      assert forall p :: 0 <= p < |init| ==> init[p] == pairs[p];
      if k in rest then rest
      else
        var r := rest + [k];
        assert forall i :: 0 <= i < |rest| ==>
          exists p :: 0 <= p < |pairs| && pairs[p].0 == r[i] && forall q :: 0 <= q <= p ==> pairs[q].0 != k by {
          forall i | 0 <= i < |rest|
            ensures exists p :: 0 <= p < |pairs| && pairs[p].0 == r[i] && forall q :: 0 <= q <= p ==> pairs[q].0 != k
          {
            assert rest[i] in rest;
            var p :| 0 <= p < |init| && init[p].0 == rest[i];
            assert forall q :: 0 <= q <= p ==> pairs[q].0 != k by {
              forall q | 0 <= q <= p ensures pairs[q].0 != k {
                assert init[q].0 in rest;
              }
            }
          }
        }
        r
  }

  /** `d.items()` of the dict built from `pairs`. */
  function Items(pairs: seq<(string, Json)>): (r: seq<(string, Json)>)
    ensures |r| == |DictKeys(pairs)|
    ensures forall i :: 0 <= i < |r| ==> r[i].0 == DictKeys(pairs)[i]
    ensures forall i :: 0 <= i < |r| ==> Lookup(pairs, r[i].0) == Some(r[i].1)
  {
    var keys := DictKeys(pairs);
    assert forall k :: k in keys ==> Lookup(pairs, k).Some?;
    seq(|keys|, i requires 0 <= i < |keys| => (keys[i], Lookup(pairs, keys[i]).value))
  }

  // ---------------------------------------------------------------------------
  // Minute-resolution stamps, "%Y-%m-%d %H:%M"

  datatype Stamp = Stamp(year: nat, month: nat, day: nat, hour: nat, minute: nat)

  function DaysIn(year: nat, month: nat): nat {
    if month == 2 then
      (if (year % 4 == 0 && year % 100 != 0) || year % 400 == 0 then 29 else 28)
    else if month == 4 || month == 6 || month == 9 || month == 11 then 30
    else 31
  }

  /** The stamps `datetime` accepts: years 1 to 9999, real calendar days. */
  predicate ValidStamp(t: Stamp) {
    1 <= t.year <= 9999 && 1 <= t.month <= 12 && 1 <= t.day <= DaysIn(t.year, t.month)
    && t.hour < 24 && t.minute < 60
  }

  function Pad2(n: nat): string
    requires n < 100
  {
    [DigitChar(n / 10), DigitChar(n % 10)]
  }

  /** Six two-digit fields laid out as the format lays them out. */
  function Layout(c: nat, y: nat, m: nat, d: nat, h: nat, n: nat): string
    requires c < 100 && y < 100 && m < 100 && d < 100 && h < 100 && n < 100
  {
    var c, y, m, d, h, n := Pad2(c), Pad2(y), Pad2(m), Pad2(d), Pad2(h), Pad2(n);
    [c[0], c[1], y[0], y[1], '-', m[0], m[1], '-', d[0], d[1], ' ', h[0], h[1], ':', n[0], n[1]]
  }

  /** `strftime("%Y-%m-%d %H:%M")`: the year as four digits, the other
      fields as two, with their separators. */
  function FormatStamp(t: Stamp): (r: string)
    requires ValidStamp(t)
    ensures |r| == 16
  {
    Layout(t.year / 100, t.year % 100, t.month, t.day, t.hour, t.minute)
  }

  function Num2(s: string, i: nat): nat
    requires i + 2 <= |s| && IsDigit(s[i]) && IsDigit(s[i + 1])
  {
    DigitValue(s[i]) * 10 + DigitValue(s[i + 1])
  }

  predicate StampShape(s: string) {
    |s| == 16 && s[4] == '-' && s[7] == '-' && s[10] == ' ' && s[13] == ':'
    && (forall i :: 0 <= i < 16 && i != 4 && i != 7 && i != 10 && i != 13 ==> IsDigit(s[i]))
  }

  /** `datetime.strptime(s, "%Y-%m-%d %H:%M")`, None where it raises
      ValueError (zero-padded fields only). */
  function ParseStamp(s: string): (r: Option<Stamp>)
    ensures r.Some? ==> ValidStamp(r.value)
  {
    if !StampShape(s) then None
    else
      var t := Stamp(Num2(s, 0) * 100 + Num2(s, 2), Num2(s, 5), Num2(s, 8), Num2(s, 11), Num2(s, 14));
      if ValidStamp(t) then Some(t) else None
  }

  lemma Pad2Digits(n: nat)
    requires n < 100
    ensures IsDigit(Pad2(n)[0]) && IsDigit(Pad2(n)[1]) && Num2(Pad2(n), 0) == n
  {
  }

  lemma LayoutFields(c: nat, y: nat, m: nat, d: nat, h: nat, n: nat)
    requires c < 100 && y < 100 && m < 100 && d < 100 && h < 100 && n < 100
    ensures var s := Layout(c, y, m, d, h, n);
      && StampShape(s)
      && Num2(s, 0) == c && Num2(s, 2) == y && Num2(s, 5) == m
      && Num2(s, 8) == d && Num2(s, 11) == h && Num2(s, 14) == n
  {
    Pad2Digits(c); Pad2Digits(y); Pad2Digits(m);
    Pad2Digits(d); Pad2Digits(h); Pad2Digits(n);
  }

  /** Formatting a valid stamp and parsing it back gives the stamp. */
  lemma ParseFormatStamp(t: Stamp)
    requires ValidStamp(t)
    ensures ParseStamp(FormatStamp(t)) == Some(t)
  {
    LayoutFields(t.year / 100, t.year % 100, t.month, t.day, t.hour, t.minute);
    assert t.year / 100 * 100 + t.year % 100 == t.year;
  }

  lemma Num2Pad2(s: string, i: nat)
    requires i + 2 <= |s| && IsDigit(s[i]) && IsDigit(s[i + 1])
    ensures Num2(s, i) < 100 && Pad2(Num2(s, i)) == s[i..i + 2]
  {
  }

  /** A text the parser accepts is exactly the formatting of what it parsed:
      the format has one spelling per stamp. */
  lemma FormatParseStamp(s: string)
    requires ParseStamp(s).Some?
    ensures FormatStamp(ParseStamp(s).value) == s
  {
    var t := ParseStamp(s).value;
    Num2Pad2(s, 0); Num2Pad2(s, 2); Num2Pad2(s, 5); Num2Pad2(s, 8); Num2Pad2(s, 11); Num2Pad2(s, 14);
    assert t.year / 100 == Num2(s, 0) && t.year % 100 == Num2(s, 2);
    var f := FormatStamp(t);
    forall i | 0 <= i < 16 ensures f[i] == s[i] {
      if i < 2 { assert s[i] == s[0..2][i]; }
      else if 2 <= i < 4 { assert s[i] == s[2..4][i - 2]; }
      else if 5 <= i < 7 { assert s[i] == s[5..7][i - 5]; }
      else if 8 <= i < 10 { assert s[i] == s[8..10][i - 8]; }
      else if 11 <= i < 13 { assert s[i] == s[11..13][i - 11]; }
      else if 14 <= i < 16 { assert s[i] == s[14..16][i - 14]; }
    }
  }

  // ---------------------------------------------------------------------------
  // The metadata block finder: regex `<!-- CODE_ASSEMBLER_METADATA\s+(.*?)\s+-->`
  // with DOTALL, searched from the start of the document

  const Marker := "<!-- CODE_ASSEMBLER_METADATA"
  const Close := "-->"

  /** The end of the run of whitespace that starts at `i`. */
  function SpaceRunEnd(doc: string, i: nat): (j: nat)
    requires i <= |doc|
    ensures i <= j <= |doc|
    ensures forall k :: i <= k < j ==> IsSpace(doc[k])
    ensures j == |doc| || !IsSpace(doc[j])
    decreases |doc| - i
  {
    if i < |doc| && IsSpace(doc[i]) then SpaceRunEnd(doc, i + 1) else i
  }

  /** `\s+-->` matches at `q`. */
  predicate ClosesAt(doc: string, q: nat) {
    q < |doc| && IsSpace(doc[q]) && OccursAt(doc, Close, SpaceRunEnd(doc, q))
  }

  /** The lazy group ends at the first `q` from which `\s+-->` matches. */
  function FindClose(doc: string, from: nat): (r: Option<nat>)
    decreases |doc| - from
    ensures r.Some? ==> from <= r.value < |doc| && ClosesAt(doc, r.value)
    ensures r.Some? ==> forall q :: from <= q < r.value ==> !ClosesAt(doc, q)
    ensures r.None? ==> forall q :: from <= q ==> !ClosesAt(doc, q)
  {
    if from >= |doc| then None
    else if ClosesAt(doc, from) then Some(from)
    else FindClose(doc, from + 1)
  }

  /** The group captured by a match starting at the marker found at `p`.
      The first `\s+` takes the whole whitespace run; if nothing closes after
      it, the only way left is to give one whitespace back to the group,
      which matches only when `-->` directly follows the run. */
  function PayloadAt(doc: string, p: nat): (r: Option<string>)
    requires OccursAt(doc, Marker, p)
  {
    var e := p + |Marker|;
    if e < |doc| && IsSpace(doc[e]) then
      var s := SpaceRunEnd(doc, e);
      match FindClose(doc, s)
      case Some(q) => Some(doc[s..q])
      case None => if s - e >= 2 && OccursAt(doc, Close, s) then Some("") else None
    else None
  }

  /** The search from `from`: the capture at the leftmost marker where the
      rest of the pattern matches, None when there is no such marker. */
  function FindPayloadFrom(doc: string, from: nat): (r: Option<string>)
    decreases |doc| + 1 - from
    ensures r.Some? ==>
      exists p :: from <= p && OccursAt(doc, Marker, p) && PayloadAt(doc, p) == r
        && forall q :: from <= q < p && OccursAt(doc, Marker, q) ==> PayloadAt(doc, q).None?
    ensures (exists p :: from <= p && OccursAt(doc, Marker, p) && PayloadAt(doc, p).Some?) ==> r.Some?
    ensures (forall p :: from <= p ==> !OccursAt(doc, Marker, p)) ==> r.None?
  {
    match Find(doc, Marker, from)
    case None => None
    case Some(p) =>
      var here := PayloadAt(doc, p);
      if here.Some? then here
      else
        var r := FindPayloadFrom(doc, p + 1);
        assert forall q :: from <= q <= p && OccursAt(doc, Marker, q) ==> PayloadAt(doc, q).None? by {
          forall q | from <= q <= p && OccursAt(doc, Marker, q) ensures PayloadAt(doc, q).None? {
            assert q == p;
          }
        }
        r
  }

  /** `_METADATA_RE.search(doc).group(1)`: the capture at the leftmost
      marker the whole pattern matches from; None exactly when it matches
      from none. */
  function FindPayload(doc: string): (r: Option<string>)
    ensures r.Some? <==> exists p :: OccursAt(doc, Marker, p) && PayloadAt(doc, p).Some?
    ensures r.Some? ==>
      exists p :: OccursAt(doc, Marker, p) && PayloadAt(doc, p) == r
        && forall q :: 0 <= q < p && OccursAt(doc, Marker, q) ==> PayloadAt(doc, q).None?
  {
    FindPayloadFrom(doc, 0)
  }

  /** The block as the snapshot writer appends it
      (tests/test_rebuild.py:56 builds it this way). */
  function MetadataBlock(json: string): string {
    "\n" + Marker + "\n" + json + "\n" + Close
  }

  /** What json.dumps of a metadata record gives for the finder to get back
      verbatim: no leading or trailing whitespace and no `-->` inside. */
  predicate Embeddable(json: string) {
    |json| > 0 && !IsSpace(json[0]) && !IsSpace(json[|json| - 1]) && !Contains(json, Close)
  }

  /** Appending the block to a document that holds no marker, the finder
      gives back exactly the JSON text that was embedded. */
  lemma FindPayloadOfBlock(pre: string, json: string)
    requires !Contains(pre, Marker)
    requires Embeddable(json)
    ensures FindPayload(pre + MetadataBlock(json)) == Some(json)
  {
    BlockLayout(pre, json);
    PayloadOfLayout(pre + MetadataBlock(json), pre, json);
  }

  /** Where the pieces of an appended block sit in the document. */
  lemma BlockLayout(pre: string, json: string)
    ensures var doc := pre + MetadataBlock(json);
      var c := |pre| + |Marker| + 2 + |json|;
      && |doc| == c + 1 + |Close|
      && doc[..|pre|] == pre && doc[|pre|] == '\n'
      && OccursAt(doc, Marker, |pre| + 1) && doc[|pre| + 1 + |Marker|] == '\n'
      && doc[|pre| + |Marker| + 2..c] == json && doc[c] == '\n' && doc[c + 1..] == Close
  {
    var doc := pre + MetadataBlock(json);
    var p := |pre| + 1;
    assert doc == pre + "\n" + Marker + "\n" + json + "\n" + Close;
    assert doc[p..] == Marker + "\n" + json + "\n" + Close;
    assert doc[p..p + |Marker|] == Marker;
    assert doc[p + |Marker| + 1..] == json + "\n" + Close;
  }

  lemma PayloadOfLayout(doc: string, pre: string, json: string)
    requires !Contains(pre, Marker)
    requires Embeddable(json)
    requires var c := |pre| + |Marker| + 2 + |json|;
      && |doc| == c + 1 + |Close|
      && doc[..|pre|] == pre && doc[|pre|] == '\n'
      && OccursAt(doc, Marker, |pre| + 1) && doc[|pre| + 1 + |Marker|] == '\n'
      && doc[|pre| + |Marker| + 2..c] == json && doc[c] == '\n' && doc[c + 1..] == Close
    ensures FindPayload(doc) == Some(json)
  {
    var p := |pre| + 1;
    var e := p + |Marker|;
    var s := e + 1;
    NoMarkerBefore(pre, doc);
    assert Find(doc, Marker, 0) == Some(p);
    assert SpaceRunEnd(doc, e) == s by {
      assert !IsSpace(json[0]);
      assert SpaceRunEnd(doc, e + 1) == s;
    }
    CloseAfterJson(doc, json, s);
    assert PayloadAt(doc, p) == Some(json);
  }

  /** After an embeddable JSON text, the group closes at the newline that
      precedes `-->`. */
  lemma CloseAfterJson(doc: string, json: string, s: nat)
    requires Embeddable(json)
    requires s + |json| + 1 + |Close| == |doc|
    requires doc[s..s + |json|] == json && doc[s + |json|] == '\n' && doc[s + |json| + 1..] == Close
    ensures FindClose(doc, s) == Some(s + |json|)
  {
    var c := s + |json|;
    NoCloseInside(doc, json, s);
    assert SpaceRunEnd(doc, c) == c + 1 by {
      assert SpaceRunEnd(doc, c + 1) == c + 1;
    }
    assert OccursAt(doc, Close, c + 1);
    assert ClosesAt(doc, c);
  }

  lemma MarkerHasNoNewline()
    ensures forall i :: 0 <= i < |Marker| ==> Marker[i] != '\n'
  {
  }

  /** No marker starts in a marker-free prefix followed by a newline. */
  lemma NoMarkerBefore(pre: string, doc: string)
    requires !Contains(pre, Marker)
    requires |pre| < |doc| && doc[..|pre|] == pre && doc[|pre|] == '\n'
    ensures forall k :: 0 <= k <= |pre| ==> !OccursAt(doc, Marker, k)
  {
    MarkerHasNoNewline();
    forall k | 0 <= k <= |pre| ensures !OccursAt(doc, Marker, k) {
      if k + |Marker| <= |pre| {
        assert doc[k..k + |Marker|] == pre[k..k + |Marker|];
        assert !OccursAt(pre, Marker, k);
      } else {
        // the marker would have to hold the newline at |pre|
        assert k + |Marker| > |doc| || doc[k..k + |Marker|][|pre| - k] == '\n';
      }
    }
  }

  /** `\s+-->` cannot match inside an embeddable JSON text followed by a
      newline. */
  lemma NoCloseInside(doc: string, json: string, s: nat)
    requires Embeddable(json)
    requires s + |json| < |doc| && doc[s..s + |json|] == json && doc[s + |json|] == '\n'
    ensures forall q :: s <= q < s + |json| ==> !ClosesAt(doc, q)
  {
    var c := s + |json|;
    forall q | s <= q < c ensures !ClosesAt(doc, q) {
      if IsSpace(doc[q]) {
        SpaceRunInside(doc, json, s, q);
        CloseNotInside(doc, json, s, SpaceRunEnd(doc, q));
      }
    }
  }

  /** A run of whitespace that starts inside the JSON text ends inside it. */
  lemma SpaceRunInside(doc: string, json: string, s: nat, q: nat)
    requires Embeddable(json)
    requires s + |json| < |doc| && doc[s..s + |json|] == json
    requires s <= q < s + |json|
    ensures SpaceRunEnd(doc, q) < s + |json|
  {
    assert doc[s + |json| - 1] == json[|json| - 1];
  }

  /** `-->` does not start inside the JSON text, nor run into the newline
      after it. */
  lemma CloseNotInside(doc: string, json: string, s: nat, j: nat)
    requires Embeddable(json)
    requires s + |json| < |doc| && doc[s..s + |json|] == json && doc[s + |json|] == '\n'
    requires s <= j < s + |json|
    ensures !OccursAt(doc, Close, j)
  {
    var c := s + |json|;
    if j + 3 <= c {
      SubSlice(doc, s, c, j - s, j - s + 3);
      assert !OccursAt(json, Close, j - s);
    } else {
      assert j + 3 > |doc| || doc[j..j + 3][c - j] == '\n';
    }
  }

  // ---------------------------------------------------------------------------
  // A snapshot: the dict {path: stamp} in insertion order

  datatype Snapshot = Snapshot(order: seq<string>, stamps: map<string, Stamp>)
  {
    /** The listing order names every key exactly once. */
    ghost predicate Valid() {
      (forall i, j :: 0 <= i < j < |order| ==> order[i] != order[j])
      && (forall k :: k in stamps <==> k in order)
    }

    /** `result[path] = stamp`: a new key goes to the end. */
    function Put(path: string, t: Stamp): (r: Snapshot)
      requires Valid()
      ensures r.Valid()
      ensures r.stamps == stamps[path := t]
    {
      if path in stamps then Snapshot(order, stamps[path := t])
      else Snapshot(order + [path], stamps[path := t])
    }
  }

  const EmptySnapshot := Snapshot([], map[])

  /** The loop of src/code_assembler/delta.py:45-49 from `acc` on: a date
      that does not parse is skipped, a value that is not a string raises
      TypeError, which ends the loop with what was collected so far. */
  function Collect(items: seq<(string, Json)>, acc: Snapshot): (r: Snapshot)
    requires acc.Valid()
    ensures r.Valid()
  {
    if |items| == 0 then acc
    else if !items[0].1.JString? then acc
    else
      match ParseStamp(items[0].1.s)
      case Some(t) => Collect(items[1..], acc.Put(items[0].0, t))
      case None => Collect(items[1..], acc)
  }

  /** What `extract_metadata` computes from the decoded JSON value. */
  function SnapshotOfData(data: Json): (r: Snapshot)
    ensures r.Valid()
  {
    if !data.JObject? then EmptySnapshot
    else
      match Lookup(data.members, "files")
      case None => EmptySnapshot
      case Some(files) =>
        if files.JObject? then Collect(Items(files.members), EmptySnapshot) else EmptySnapshot
  }

  /** `extract_metadata(md_file)`; `doc` is None when the file cannot be read. */
  function MetadataOf(doc: Option<string>, decode: Decoder): (r: Snapshot)
    ensures r.Valid()
  {
    if doc.None? then EmptySnapshot
    else
      match FindPayload(doc.value)
      case None => EmptySnapshot
      case Some(payload) =>
        match decode(payload)
        case None => EmptySnapshot
        case Some(data) => SnapshotOfData(data)
  }

  /** src/code_assembler/delta.py:35-52 as the loop it is. */
  method ExtractMetadata(doc: Option<string>, decode: Decoder) returns (result: Snapshot)
    ensures result == MetadataOf(doc, decode)
  {
    result := EmptySnapshot;
    if doc.None? { return; }
    var payload := FindPayload(doc.value);
    if payload.None? { return; }
    var data := decode(payload.value);
    if data.None? || !data.value.JObject? { return; }
    var files := Lookup(data.value.members, "files");
    if files.None? || !files.value.JObject? { return; }
    var items := Items(files.value.members);
    var i := 0;
    while i < |items|
      invariant 0 <= i <= |items|
      invariant result.Valid()
      invariant Collect(items[i..], result) == Collect(items, EmptySnapshot)
    {
      var (path, value) := items[i];
      assert items[i..][0] == items[i] && items[i..][1..] == items[i + 1..];
      if !value.JString? {
        break;
      }
      var t := ParseStamp(value.s);
      if t.Some? {
        result := result.Put(path, t.value);
      }
      i := i + 1;
    }
  }

  /** The three ways to an empty snapshot: unreadable file, no marker,
      undecodable JSON. */
  lemma MetadataAbsent(doc: Option<string>, decode: Decoder)
    requires doc.None? || !Contains(doc.value, Marker)
          || (FindPayload(doc.value).Some? && decode(FindPayload(doc.value).value).None?)
    ensures MetadataOf(doc, decode) == EmptySnapshot
  {
  }

  /** Some entry of `items` names `k` with a date that parses. */
  ghost predicate Kept(items: seq<(string, Json)>, k: string)
    requires forall i :: 0 <= i < |items| ==> items[i].1.JString?
  {
    exists i :: 0 <= i < |items| && items[i].0 == k && ParseStamp(items[i].1.s).Some?
  }

  lemma KeptCons(items: seq<(string, Json)>, k: string)
    requires |items| > 0 && forall i :: 0 <= i < |items| ==> items[i].1.JString?
    ensures Kept(items, k) <==>
      (items[0].0 == k && ParseStamp(items[0].1.s).Some?) || Kept(items[1..], k)
  {
    if Kept(items, k) {
      var i :| 0 <= i < |items| && items[i].0 == k && ParseStamp(items[i].1.s).Some?;
      if i > 0 { assert items[1..][i - 1] == items[i]; }
    }
    if Kept(items[1..], k) {
      var i :| 0 <= i < |items[1..]| && items[1..][i].0 == k && ParseStamp(items[1..][i].1.s).Some?;
      assert items[i + 1] == items[1..][i];
    }
  }

  /** The loop's first step when the first date is a string. */
  lemma CollectCons(items: seq<(string, Json)>, acc: Snapshot)
    requires acc.Valid() && |items| > 0 && items[0].1.JString?
    ensures Collect(items, acc) == Collect(items[1..],
      match ParseStamp(items[0].1.s) case Some(t) => acc.Put(items[0].0, t) case None => acc)
  {
  }

  /** When every date is a string, each entry is kept exactly when its date
      parses: bad dates are dropped one by one. */
  lemma {:induction false} CollectKeys(items: seq<(string, Json)>, acc: Snapshot)
    requires acc.Valid()
    requires forall i :: 0 <= i < |items| ==> items[i].1.JString?
    ensures forall k :: k in Collect(items, acc).stamps <==> k in acc.stamps || Kept(items, k)
  {
    if |items| > 0 {
      var next := match ParseStamp(items[0].1.s) case Some(t) => acc.Put(items[0].0, t) case None => acc;
      CollectCons(items, acc);
      CollectKeys(items[1..], next);
      forall k {
        KeptCons(items, k);
      }
    }
  }

  /** With distinct paths not yet collected, each kept entry holds its
      parsed stamp, and what was collected before stays as it was. */
  lemma {:induction false} CollectValues(items: seq<(string, Json)>, acc: Snapshot)
    requires acc.Valid()
    requires forall i :: 0 <= i < |items| ==> items[i].1.JString?
    requires forall i, j :: 0 <= i < j < |items| ==> items[i].0 != items[j].0
    requires forall i :: 0 <= i < |items| ==> items[i].0 !in acc.stamps
    ensures forall i :: 0 <= i < |items| && ParseStamp(items[i].1.s).Some? ==>
      items[i].0 in Collect(items, acc).stamps
      && Collect(items, acc).stamps[items[i].0] == ParseStamp(items[i].1.s).value
    ensures forall k :: k in acc.stamps ==>
      k in Collect(items, acc).stamps && Collect(items, acc).stamps[k] == acc.stamps[k]
  {
    if |items| > 0 {
      var next := match ParseStamp(items[0].1.s) case Some(t) => acc.Put(items[0].0, t) case None => acc;
      CollectCons(items, acc);
      assert forall i :: 0 <= i < |items[1..]| ==> items[1..][i] == items[i + 1];
      CollectValues(items[1..], next);
    }
  }
}
