/** Entity-tag lists and user versions (src/modules/users/presentation/user-etag.ts). */
module EntityTag {
  import opened JsText
  import opened Digits

  datatype Parsed<+T> = Ok(value: T) | Malformed

  datatype VersionPrecondition = AnyCurrent | Versions(versions: seq<nat>)

  // ---- the list splitter ----

  /** The part of a text before and between its unquoted commas, and whether the text ends
      inside a quotation. */
  datatype Scan = Scan(segments: seq<string>, quoted: bool)

  function Segments(s: string, quoted: bool): (r: Scan)
    ensures |r.segments| >= 1
  {
    if s == "" then Scan([""], quoted)
    else
      var rest := Segments(s[1..], if s[0] == '"' then !quoted else quoted);
      if s[0] == ',' && !quoted then Scan([""] + rest.segments, rest.quoted)
      else Scan([[s[0]] + rest.segments[0]] + rest.segments[1..], rest.quoted)
  }

  predicate IsTagChar(c: char) {
    c as int == 0x21 || 0x23 <= c as int <= 0x7e || 0x80 <= c as int <= 0xff
  }

  predicate IsStrongTag(s: string) {
    |s| >= 2 && s[0] == '"' && s[|s| - 1] == '"' && forall i :: 0 < i < |s| - 1 ==> IsTagChar(s[i])
  }

  /** Matches ^(?:W\/)?"[\x21\x23-\x7e\x80-\xff]*"$ . */
  predicate IsTag(s: string) {
    IsStrongTag(s) || (|s| >= 2 && s[..2] == "W/" && IsStrongTag(s[2..]))
  }

  predicate AllTags(tags: seq<string>) {
    forall i :: 0 <= i < |tags| ==> IsTag(tags[i])
  }

  function TrimAll(segments: seq<string>): (r: seq<string>)
    ensures |r| == |segments|
    ensures forall i :: 0 <= i < |r| ==> r[i] == Trim(segments[i])
  {
    seq(|segments|, i requires 0 <= i < |segments| => Trim(segments[i]))
  }

  function SplitList(value: string): Parsed<seq<string>> {
    var scan := Segments(value, false);
    var members := TrimAll(scan.segments);
    if !scan.quoted && AllTags(members) then Ok(members) else Malformed
  }

  /** splitEntityTagList: one pass with a start mark and a quotation flag. */
  method SplitEntityTagList(value: string) returns (r: Parsed<seq<string>>)
    ensures r == SplitList(value)
  {
    var members: seq<string> := [];
    ghost var raw: seq<string> := [];
    var start := 0;
    var quoted := false;
    var index := 0;
    assert value[0..] == value && value[0..0] == "";
    ScanStarts(value);
    while index < |value|
      invariant 0 <= start <= index <= |value|
      invariant members == TrimAll(raw)
      invariant Continues(value, raw, value[start..index], value[index..], quoted)
    {
      var character := value[index];
      assert value[index..][0] == character && value[index..][1..] == value[index + 1..];
      assert value[start..index] + [character] == value[start..index + 1];
      Advance(value, raw, value[start..index], value[index..], quoted);
      if character == '"' {
        quoted := !quoted;
        index := index + 1;
        continue;
      }
      if quoted {
        index := index + 1;
        continue;
      }
      if character == ',' {
        var member := Trim(value[start..index]);
        raw := raw + [value[start..index]];
        if member == "" {
          EmptyMember(value, raw, value[index + 1..], quoted);
          return Malformed;
        }
        members := members + [member];
        start := index + 1;
        assert value[start..index + 1] == "";
      }
      index := index + 1;
    }
    assert value[index..] == "" && value[start..index] == value[start..];
    ScanEnds(value, raw, value[start..], quoted);
    if quoted {
      return Malformed;
    }
    var finalMember := Trim(value[start..]);
    if finalMember == "" {
      return Malformed;
    }
    members := members + [finalMember];
    var wellFormed := EveryMemberIsTag(members);
    return if wellFormed then Ok(members) else Malformed;
  }

  method EveryMemberIsTag(members: seq<string>) returns (ok: bool)
    ensures ok <==> AllTags(members)
  {
    for i := 0 to |members|
      invariant AllTags(members[..i])
    {
      if members[i] == "*" || !IsTag(members[i]) {
        assert !IsTag(members[i]);
        return false;
      }
      assert members[..i + 1] == members[..i] + [members[i]];
    }
    assert members[..|members|] == members;
    return true;
  }

  /** The scan of the whole value is what was cut off already, the open segment, and the scan of
      what is left. */
  ghost predicate Continues(value: string, raw: seq<string>, open: string, left: string, quoted: bool) {
    var rest := Segments(left, quoted);
    && Segments(value, false).segments == raw + [open + rest.segments[0]] + rest.segments[1..]
    && Segments(value, false).quoted == rest.quoted
  }

  lemma ScanStarts(value: string)
    ensures Continues(value, [], "", value, false)
  {
    var segments := Segments(value, false).segments;
    assert "" + segments[0] == segments[0];
    assert segments == [] + [segments[0]] + segments[1..];
  }

  lemma ScanEnds(value: string, raw: seq<string>, open: string, quoted: bool)
    requires Continues(value, raw, open, "", quoted)
    ensures SplitList(value) ==
            (if !quoted && AllTags(TrimAll(raw) + [Trim(open)]) then Ok(TrimAll(raw) + [Trim(open)]) else Malformed)
    ensures Trim(open) == "" ==> SplitList(value) == Malformed
  {
    assert Segments("", quoted) == Scan([""], quoted);
    assert open + "" == open;
    assert raw + [open] + [] == raw + [open];
    TrimAllSnoc(raw, open);
    assert (TrimAll(raw) + [Trim(open)])[|raw|] == Trim(open);
  }

  /** A blank member anywhere spoils the list. */
  lemma EmptyMember(value: string, raw: seq<string>, left: string, quoted: bool)
    requires Continues(value, raw, "", left, quoted) && raw != [] && Trim(raw[|raw| - 1]) == ""
    ensures SplitList(value) == Malformed
  {
    var segments := Segments(value, false).segments;
    assert segments[|raw| - 1] == raw[|raw| - 1];
    assert TrimAll(segments)[|raw| - 1] == "";
  }

  lemma TrimAllSnoc(raw: seq<string>, last: string)
    ensures TrimAll(raw + [last]) == TrimAll(raw) + [Trim(last)]
  {
  }

  lemma Advance(value: string, raw: seq<string>, open: string, left: string, quoted: bool)
    requires left != "" && Continues(value, raw, open, left, quoted)
    ensures if left[0] == ',' && !quoted then Continues(value, raw + [open], "", left[1..], quoted)
            else Continues(value, raw, open + [left[0]], left[1..], if left[0] == '"' then !quoted else quoted)
  {
    if left[0] == ',' && !quoted {
      var rest := Segments(left[1..], quoted);
      assert Segments(left, quoted).segments == [""] + rest.segments;
      assert open + "" == open && "" + rest.segments[0] == rest.segments[0];
      assert raw + [open] + ([""] + rest.segments)[1..] == (raw + [open]) + [rest.segments[0]] + rest.segments[1..];
    } else {
      var rest := Segments(left[1..], if left[0] == '"' then !quoted else quoted);
      assert open + ([left[0]] + rest.segments[0]) == (open + [left[0]]) + rest.segments[0];
    }
  }

  // ---- the splitter is exact ----

  /** The last segment of one text runs on into the first segment of the next. */
  function Glue(x: seq<string>, y: seq<string>): seq<string>
    requires x != [] && y != []
  {
    x[..|x| - 1] + [x[|x| - 1] + y[0]] + y[1..]
  }

  lemma GlueCons(c: char, x: seq<string>, y: seq<string>)
    requires x != [] && y != []
    ensures Glue([""] + x, y) == [""] + Glue(x, y)
    ensures Glue([[c] + x[0]] + x[1..], y) == [[c] + Glue(x, y)[0]] + Glue(x, y)[1..]
  {
    if |x| == 1 {
      assert ([c] + x[0]) + y[0] == [c] + (x[0] + y[0]);
    }
  }

  lemma GlueEmpty(y: seq<string>)
    requires y != []
    ensures Glue([""], y) == y
  {
    assert "" + y[0] == y[0];
  }

  /** Scanning a concatenation glues the segments of its parts. */
  lemma {:induction false} SegmentsConcat(a: string, b: string, quoted: bool)
    ensures var x := Segments(a, quoted);
            var y := Segments(b, x.quoted);
            Segments(a + b, quoted) == Scan(Glue(x.segments, y.segments), y.quoted)
  {
    if a == "" {
      assert a + b == b;
      GlueEmpty(Segments(b, quoted).segments);
    } else {
      assert (a + b)[1..] == a[1..] + b;
      var q := if a[0] == '"' then !quoted else quoted;
      SegmentsConcat(a[1..], b, q);
      var x1 := Segments(a[1..], q);
      GlueCons(a[0], x1.segments, Segments(b, x1.quoted).segments);
    }
  }

  lemma {:induction false} PlainSegment(s: string, quoted: bool)
    requires '"' !in s && (quoted || ',' !in s)
    ensures Segments(s, quoted) == Scan([s], quoted)
  {
    if s != "" {
      PlainSegment(s[1..], quoted);
      assert [s[0]] + s[1..] == s;
    }
  }

  /** A quoted string is one segment, whatever commas it holds. */
  lemma QuotedSegment(s: string)
    requires IsStrongTag(s)
    ensures Segments(s, false) == Scan([s], false)
  {
    var inner := s[1..|s| - 1];
    assert s == "\"" + inner + "\"";
    PlainSegment(inner, true);
    SegmentsConcat("\"", inner, false);
    assert "\""[1..] == "";
    SegmentsConcat("\"" + inner, "\"", false);
  }

  lemma GlueSegments(a: string, b: string)
    requires Segments(a, false) == Scan([a], false) && Segments(b, false) == Scan([b], false)
    ensures Segments(a + b, false) == Scan([a + b], false)
  {
    SegmentsConcat(a, b, false);
  }

  lemma OneSegment(tag: string)
    requires IsTag(tag)
    ensures Segments(tag, false) == Scan([tag], false)
  {
    if IsStrongTag(tag) {
      QuotedSegment(tag);
    } else {
      QuotedSegment(tag[2..]);
      PlainSegment("W/", false);
      GlueSegments("W/", tag[2..]);
      assert tag == "W/" + tag[2..];
    }
  }

  lemma TagSegment(left: string, tag: string, right: string)
    requires AllSpace(left) && AllSpace(right) && IsTag(tag)
    ensures Segments(left + tag + right, false) == Scan([left + tag + right], false)
    ensures Trim(left + tag + right) == tag
  {
    PlainSegment(left, false);
    PlainSegment(right, false);
    OneSegment(tag);
    GlueSegments(left, tag);
    GlueSegments(left + tag, right);
    assert tag[|tag| - 1] == '"';
    TrimPadded(left, tag, right);
  }

  function Padded(lefts: seq<string>, tags: seq<string>, rights: seq<string>): (r: seq<string>)
    requires |lefts| == |tags| == |rights|
    ensures |r| == |tags|
    ensures forall i :: 0 <= i < |r| ==> r[i] == lefts[i] + tags[i] + rights[i]
  {
    seq(|tags|, i requires 0 <= i < |tags| => lefts[i] + tags[i] + rights[i])
  }

  ghost predicate Pads(pads: seq<string>) {
    forall i :: 0 <= i < |pads| ==> AllSpace(pads[i])
  }

  /** The list grammar: well-formed tags with optional blanks around them, joined by commas. */
  ghost predicate Writes(value: string, lefts: seq<string>, tags: seq<string>, rights: seq<string>) {
    && |lefts| == |tags| == |rights| >= 1
    && Pads(lefts) && Pads(rights) && AllTags(tags)
    && value == Join(Padded(lefts, tags, rights), ',')
  }

  lemma CommaScan(first: string, rest: string)
    requires Segments(first, false) == Scan([first], false)
    ensures Segments(first + [','] + rest, false) ==
            Scan([first] + Segments(rest, false).segments, Segments(rest, false).quoted)
  {
    CommaFirst(rest);
    SegmentsConcat(first, [','] + rest, false);
    GlueOne(first, Segments(rest, false).segments);
    CommaBetween(first, rest);
  }

  lemma CommaFirst(rest: string)
    ensures Segments([','] + rest, false) == Scan([""] + Segments(rest, false).segments, Segments(rest, false).quoted)
  {
    var tail := [','] + rest;
    assert tail[1..] == rest && tail[0] == ',';
  }

  lemma CommaBetween(first: string, rest: string)
    ensures first + ([','] + rest) == first + [','] + rest
  {
  }

  lemma GlueOne(first: string, y: seq<string>)
    ensures Glue([first], [""] + y) == [first] + y
  {
    assert first + "" == first;
  }

  lemma {:induction false} JoinScan(segments: seq<string>)
    requires |segments| >= 1
    requires forall i :: 0 <= i < |segments| ==> Segments(segments[i], false) == Scan([segments[i]], false)
    ensures Segments(Join(segments, ','), false) == Scan(segments, false)
  {
    if |segments| > 1 {
      JoinScan(segments[1..]);
      CommaScan(segments[0], Join(segments[1..], ','));
    }
  }

  /** Splitting a written list returns its tags. */
  lemma SplitOfWritten(value: string, lefts: seq<string>, tags: seq<string>, rights: seq<string>)
    requires Writes(value, lefts, tags, rights)
    ensures SplitList(value) == Ok(tags)
  {
    var padded := Padded(lefts, tags, rights);
    forall i | 0 <= i < |padded|
      ensures Segments(padded[i], false) == Scan([padded[i]], false) && Trim(padded[i]) == tags[i]
    {
      TagSegment(lefts[i], tags[i], rights[i]);
    }
    JoinScan(padded);
    assert TrimAll(padded) == tags;
  }

  lemma {:induction false} JoinSegments(s: string, quoted: bool)
    ensures Join(Segments(s, quoted).segments, ',') == s
  {
    if s != "" {
      var q := if s[0] == '"' then !quoted else quoted;
      JoinSegments(s[1..], q);
      assert s == [s[0]] + s[1..];
      var rest := Segments(s[1..], q).segments;
      if s[0] == ',' && !quoted {
        JoinNext("", rest);
      } else {
        JoinExtended(s[0], rest);
      }
    }
  }

  lemma JoinNext(first: string, rest: seq<string>)
    requires rest != []
    ensures Join([first] + rest, ',') == first + [','] + Join(rest, ',')
  {
    assert ([first] + rest)[1..] == rest;
  }

  lemma JoinExtended(c: char, rest: seq<string>)
    requires rest != []
    ensures Join([[c] + rest[0]] + rest[1..], ',') == [c] + Join(rest, ',')
  {
    if |rest| > 1 {
      assert [rest[0]] + rest[1..] == rest;
      JoinNext(rest[0], rest[1..]);
      JoinNext([c] + rest[0], rest[1..]);
      Prefixed(c, rest[0], Join(rest[1..], ','));
    } else {
      assert [[c] + rest[0]] + rest[1..] == [[c] + rest[0]];
    }
  }

  lemma Prefixed(c: char, first: string, rest: string)
    ensures [c] + (first + [','] + rest) == ([c] + first) + [','] + rest
  {
  }

  lemma {:induction false} PadsOf(segments: seq<string>) returns (lefts: seq<string>, rights: seq<string>)
    ensures |lefts| == |rights| == |segments| && Pads(lefts) && Pads(rights)
    ensures Padded(lefts, TrimAll(segments), rights) == segments
  {
    if segments == [] {
      lefts, rights := [], [];
    } else {
      var l, r := TrimSplits(segments[0]);
      lefts, rights := PadsOf(segments[1..]);
      assert TrimAll(segments)[1..] == TrimAll(segments[1..]);
      assert Padded(lefts, TrimAll(segments[1..]), rights) == segments[1..];
      forall i | 0 <= i < |segments|
        ensures ([l] + lefts)[i] + TrimAll(segments)[i] + ([r] + rights)[i] == segments[i]
      {
        if i > 0 {
          assert Padded(lefts, TrimAll(segments[1..]), rights)[i - 1] == segments[1..][i - 1];
        }
      }
      lefts, rights := [l] + lefts, [r] + rights;
    }
  }

  /** The splitter accepts exactly the written lists, and returns the tags they were written from. */
  lemma SplitIsExact(value: string, tags: seq<string>)
    ensures SplitList(value) == Ok(tags) <==>
            exists lefts: seq<string>, rights: seq<string> :: Writes(value, lefts, tags, rights)
  {
    if SplitList(value) == Ok(tags) {
      var segments := Segments(value, false).segments;
      var lefts, rights := PadsOf(segments);
      JoinSegments(value, false);
      assert Writes(value, lefts, tags, rights);
    }
    if lefts: seq<string>, rights: seq<string> :| Writes(value, lefts, tags, rights) {
      SplitOfWritten(value, lefts, tags, rights);
    }
  }

  /** Printable characters other than the quotation mark and the space, and the upper half of Latin-1. */
  ghost predicate Opaque(inner: string) {
    forall i :: 0 <= i < |inner| ==>
      ('!' <= inner[i] <= '~' && inner[i] != '"') || 128 <= inner[i] as int <= 255
  }

  lemma StrongGrammar(s: string)
    ensures IsStrongTag(s) <==> exists inner: string :: s == "\"" + inner + "\"" && Opaque(inner)
  {
    if IsStrongTag(s) {
      var inner := s[1..|s| - 1];
      assert s == "\"" + inner + "\"";
      forall i | 0 <= i < |inner|
        ensures ('!' <= inner[i] <= '~' && inner[i] != '"') || 128 <= inner[i] as int <= 255
      {
        assert inner[i] == s[i + 1] && IsTagChar(s[i + 1]);
      }
    }
    if inner: string :| s == "\"" + inner + "\"" && Opaque(inner) {
      assert forall i :: 0 < i < |s| - 1 ==> s[i] == inner[i - 1];
    }
  }

  /** The members of a list: a strong tag is such a text in quotation marks, a weak one has W/ before
      it. */
  lemma TagGrammar(s: string)
    ensures IsTag(s) <==> exists inner: string ::
              Opaque(inner) && (s == "\"" + inner + "\"" || s == "W/" + ("\"" + inner + "\""))
  {
    StrongGrammar(s);
    if |s| >= 2 {
      StrongGrammar(s[2..]);
      assert s[..2] == "W/" ==> s == "W/" + s[2..];
    }
    if inner: string :| Opaque(inner) && s == "W/" + ("\"" + inner + "\"") {
      assert s[..2] == "W/" && s[2..] == "\"" + inner + "\"";
    }
  }

  // ---- user versions ----

  function FormatTag(version: nat): string {
    "\"v" + ToText(version, 10) + "\""
  }

  /** formatUserEntityTag; None stands for its thrown error. */
  function FormatUserEntityTag(version: nat): (r: Option<string>)
    ensures r.Some? <==> 1 <= version <= MAX_SAFE_INTEGER
  {
    if 1 <= version <= MAX_SAFE_INTEGER then Some(FormatTag(version)) else None
  }

  /** Matches ^"v([1-9][0-9]*)"$ . */
  predicate IsVersionTag(tag: string) {
    |tag| >= 4 && tag[..2] == "\"v" && tag[|tag| - 1] == '"' && tag[2] != '0'
    && forall i :: 2 <= i < |tag| - 1 ==> IsDecimal(tag[i])
  }

  function UserVersionFromEntityTag(tag: string): Option<nat> {
    if IsVersionTag(tag) && 1 <= FromText(tag[2..|tag| - 1], 10) <= MAX_SAFE_INTEGER
    then Some(FromText(tag[2..|tag| - 1], 10)) else None
  }

  lemma {:induction false} DecimalText(n: nat)
    ensures forall i :: 0 <= i < |ToText(n, 10)| ==> IsDecimal(ToText(n, 10)[i])
  {
    forall i | 0 <= i < |ToText(n, 10)|
      ensures IsDecimal(ToText(n, 10)[i])
    {
      assert DigitValue(ToText(n, 10)[i]) < 10;
    }
  }

  /** A tag carries a version exactly when it is the one formatted for it. */
  lemma VersionTagExact(tag: string, n: nat)
    ensures UserVersionFromEntityTag(tag) == Some(n) <==> 1 <= n <= MAX_SAFE_INTEGER && tag == FormatTag(n)
  {
    if UserVersionFromEntityTag(tag) == Some(n) {
      var digits := tag[2..|tag| - 1];
      ToFromText(digits);
      assert tag == tag[..2] + digits + [tag[|tag| - 1]];
    }
    if 1 <= n <= MAX_SAFE_INTEGER && tag == FormatTag(n) {
      FromToText(n, 10);
      NoLeadingZero(n, 10);
      DecimalText(n);
      assert tag[2..|tag| - 1] == ToText(n, 10);
      assert tag[2] == ToText(n, 10)[0];
      assert IsVersionTag(tag);
    }
  }

  function StrongVersion(member: string): Option<nat> {
    if |member| >= 2 && member[..2] == "W/" then None else UserVersionFromEntityTag(member)
  }

  /** The versions of the strong members, each once, in order of first appearance. */
  function VersionsOf(members: seq<string>): (versions: seq<nat>)
    ensures forall i, j :: 0 <= i < j < |versions| ==> versions[i] != versions[j]
  {
    if members == [] then []
    else
      var before := VersionsOf(members[..|members| - 1]);
      match StrongVersion(members[|members| - 1])
      case None => before
      case Some(v) => if v in before then before else before + [v]
  }

  function IfMatch(value: string): Parsed<VersionPrecondition> {
    if Trim(value) == "*" then Ok(AnyCurrent)
    else match SplitList(Trim(value))
      case Malformed => Malformed
      case Ok(members) => Ok(Versions(VersionsOf(members)))
  }

  method ParseUserIfMatch(value: string) returns (r: Parsed<VersionPrecondition>)
    ensures r == IfMatch(value)
  {
    var trimmed := Trim(value);
    if trimmed == "*" {
      return Ok(AnyCurrent);
    }
    var members := SplitEntityTagList(trimmed);
    if members.Malformed? {
      return Malformed;
    }
    var versions: seq<nat> := [];
    for index := 0 to |members.value|
      invariant versions == VersionsOf(members.value[..index])
    {
      var member := members.value[index];
      assert members.value[..index + 1][..index] == members.value[..index];
      if |member| >= 2 && member[..2] == "W/" {
        continue;
      }
      var version := UserVersionFromEntityTag(member);
      if version.Some? && version.value !in versions {
        versions := versions + [version.value];
      }
    }
    assert members.value[..|members.value|] == members.value;
    return Ok(Versions(versions));
  }

  lemma {:induction false} VersionsListed(members: seq<string>, n: nat)
    ensures n in VersionsOf(members) <==> 1 <= n <= MAX_SAFE_INTEGER && FormatTag(n) in members
  {
    if members != [] {
      var front, last := members[..|members| - 1], members[|members| - 1];
      assert members == front + [last];
      VersionsListed(front, n);
      VersionTagExact(last, n);
      assert FormatTag(n)[0] == '"';
    }
  }

  /** If-Match names exactly the versions whose strong tag is listed, and never a weak one. */
  lemma IfMatchExact(value: string, n: nat)
    requires Trim(value) != "*" && SplitList(Trim(value)).Ok?
    ensures IfMatch(value).Ok? && IfMatch(value).value.Versions?
    ensures n in IfMatch(value).value.versions <==>
            1 <= n <= MAX_SAFE_INTEGER && FormatTag(n) in SplitList(Trim(value)).value
  {
    VersionsListed(SplitList(Trim(value)).value, n);
  }

  /** A text is a list if it can be written as one. */
  ghost predicate IsWritten(value: string) {
    exists lefts: seq<string>, tags: seq<string>, rights: seq<string> :: Writes(value, lefts, tags, rights)
  }

  lemma SplitsIfWritten(value: string)
    ensures SplitList(value).Ok? <==> IsWritten(value)
  {
    if SplitList(value).Ok? {
      SplitIsExact(value, SplitList(value).value);
    }
    if IsWritten(value) {
      var lefts: seq<string>, tags: seq<string>, rights: seq<string> :| Writes(value, lefts, tags, rights);
      SplitIsExact(value, tags);
    }
  }

  lemma StarIsNoList()
    ensures !IsWritten("*")
  {
    PlainSegment("*", false);
    TrimPadded("", "*", "");
    assert "" + "*" + "" == "*";
    assert TrimAll(["*"])[0] == "*" && !IsTag("*");
    SplitsIfWritten("*");
  }

  /** A write is unconditional if and only if the header is a star; a header that is neither a star
      nor a written list is malformed, and makes the write fail. */
  lemma IfMatchCases(value: string)
    ensures IfMatch(value) == Ok(AnyCurrent) <==> Trim(value) == "*"
    ensures IfMatch(value).Ok? && IfMatch(value).value.Versions? <==> IsWritten(Trim(value))
    ensures IfMatch(value).Malformed? <==> Trim(value) != "*" && !IsWritten(Trim(value))
  {
    SplitsIfWritten(Trim(value));
    StarIsNoList();
  }

  function WeakStripped(member: string): string {
    if |member| >= 2 && member[..2] == "W/" then member[2..] else member
  }

  function UserIfNoneMatchMatches(value: string, currentVersion: nat): Parsed<bool> {
    if Trim(value) == "*" then Ok(true)
    else match SplitList(Trim(value))
      case Malformed => Malformed
      case Ok(members) =>
        Ok(exists i :: 0 <= i < |members| && UserVersionFromEntityTag(WeakStripped(members[i])) == Some(currentVersion))
  }

  /** If-None-Match matches exactly when the current version is listed, weak or strong. */
  lemma IfNoneMatchExact(value: string, current: nat)
    requires 1 <= current <= MAX_SAFE_INTEGER && Trim(value) != "*" && SplitList(Trim(value)).Ok?
    ensures UserIfNoneMatchMatches(value, current) ==
            Ok(FormatTag(current) in SplitList(Trim(value)).value
               || "W/" + FormatTag(current) in SplitList(Trim(value)).value)
  {
    var members := SplitList(Trim(value)).value;
    forall i | 0 <= i < |members|
      ensures UserVersionFromEntityTag(WeakStripped(members[i])) == Some(current) <==>
              members[i] == FormatTag(current) || members[i] == "W/" + FormatTag(current)
    {
      VersionTagExact(WeakStripped(members[i]), current);
      assert FormatTag(current)[0] == '"';
      assert ("W/" + FormatTag(current))[..2] == "W/" && ("W/" + FormatTag(current))[2..] == FormatTag(current);
      if WeakStripped(members[i]) != members[i] {
        assert members[i] == "W/" + members[i][2..];
      }
    }
  }

  /** A star matches any version; a header that is neither a star nor a written list is malformed. */
  lemma IfNoneMatchCases(value: string, current: nat)
    ensures Trim(value) == "*" ==> UserIfNoneMatchMatches(value, current) == Ok(true)
    ensures UserIfNoneMatchMatches(value, current).Ok? <==> Trim(value) == "*" || IsWritten(Trim(value))
  {
    SplitsIfWritten(Trim(value));
  }

  lemma FormattedIsStrong(version: nat)
    ensures IsStrongTag(FormatTag(version))
  {
    var tag := FormatTag(version);
    DecimalText(version);
    forall i | 0 < i < |tag| - 1
      ensures IsTagChar(tag[i])
    {
      if i > 1 {
        assert tag[i] == ToText(version, 10)[i - 2];
      }
    }
  }

  /** A tag handed out for a version, sent back as If-Match, names that version alone. */
  lemma TagRoundTrip(version: nat)
    requires 1 <= version <= MAX_SAFE_INTEGER
    ensures IfMatch(FormatTag(version)) == Ok(Versions([version]))
    ensures FormatUserEntityTag(version) == Some("\"v" + ToText(version, 10) + "\"")
  {
    var tag := FormatTag(version);
    FormattedIsStrong(version);
    TrimPadded("", tag, "");
    assert "" + tag + "" == tag;
    SplitOfWritten(tag, [""], [tag], [""]);
    VersionTagExact(tag, version);
    assert StrongVersion(tag) == Some(version);
    assert VersionsOf([tag]) == [version] by {
      assert [tag][..0] == [];
      assert VersionsOf([tag][..0]) == [];
    }
  }
}
