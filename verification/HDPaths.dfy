/** HD derivation paths of agent authors: printing, parsing and the index of a path segment
    (internal/aip2p/hd_keys.go; hardened indexes as in SLIP-0010). */
module HDPaths {
  import opened Options
  import opened Text

  const HARDENED := 0x8000_0000
  const UINT32 := 0x1_0000_0000
  const SCHEME := "agent://"

  // ---------- Authors ----------

  /** normalizeHDPathSegment. */
  function NormalizeSegment(segment: string): string {
    if Norm(segment) == "" then "default" else Norm(segment)
  }

  function NormalizeAll(parts: seq<string>): (out: seq<string>)
    ensures |out| == |parts|
  {
    if parts == [] then [] else [NormalizeSegment(parts[0])] + NormalizeAll(parts[1..])
  }

  datatype AuthorPath = AuthorPath(root: string, segments: seq<string>)

  /** splitAuthorPath. */
  function SplitAuthor(author: string): Option<AuthorPath> {
    var a := Trim(author);
    if !HasPrefix(a, SCHEME) then None
    else
      var trimmed := TrimSlashes(a[|SCHEME|..]);
      if trimmed == "" then None
      else
        var parts := Split(trimmed, '/');
        var root := Trim(parts[0]);
        if root == "" then None else Some(AuthorPath(SCHEME + root, NormalizeAll(parts[1..])))
  }

  /** RootAuthor. */
  function RootOf(author: string): Option<string> {
    match SplitAuthor(author)
    case None => None
    case Some(p) => Some(p.root)
  }

  lemma {:induction false} TrimLeftNoNew(s: string, c: char)
    requires c !in s
    ensures c !in TrimLeft(s)
    decreases |s|
  {
    if SpaceAt(s) != 0 {
      TrimLeftNoNew(s[SpaceAt(s)..], c);
    }
  }

  lemma {:induction false} TrimRightNoNew(s: string, c: char)
    requires c !in s
    ensures c !in TrimRight(s)
    decreases |s|
  {
    if SpaceBefore(s) != 0 {
      TrimRightNoNew(s[..|s| - SpaceBefore(s)], c);
    }
  }

  /** A root author has no segments of its own and is its own root. */
  lemma RootHasNoSegments(author: string)
    requires SplitAuthor(author).Some?
    ensures var root := SplitAuthor(author).value.root;
            Trim(root) == root && SplitAuthor(root) == Some(AuthorPath(root, []))
  {
    var a := Trim(author);
    var trimmed := TrimSlashes(a[|SCHEME|..]);
    var part := Split(trimmed, '/')[0];
    var name := Trim(part);
    SplitParts(trimmed, '/');
    TrimIsTrimmed(part);
    TrimLeftNoNew(part, '/');
    TrimRightNoNew(TrimLeft(part), '/');
    var root := SCHEME + name;
    RootIsTrimmed(name);
    assert root[|SCHEME|..] == name;
    assert TrimSlashes(name) == name by {
      assert name[0] != '/' && name[|name| - 1] != '/';
    }
    SplitPlain(name, '/');
    assert [name][1..] == [];
  }

  /** An author is a root and segments between slashes; slashes around them are dropped, the root is trimmed and every segment
      normalized, in place. A blank root is refused. */
  lemma AuthorSplits(author: string, root: string, segments: seq<string>, lead: string, trail: string)
    requires (forall k :: 0 <= k < |lead| ==> lead[k] == '/') && (forall k :: 0 <= k < |trail| ==> trail[k] == '/')
    requires '/' !in root && root != "" && forall s <- segments :: '/' !in s
    requires segments != [] ==> segments[|segments| - 1] != ""
    requires Trim(author) == SCHEME + (lead + Join([root] + segments, '/') + trail)
    ensures SplitAuthor(author) ==
              if Trim(root) == "" then None
              else Some(AuthorPath(SCHEME + Trim(root), NormalizeAll(segments)))
    ensures forall k :: 0 <= k < |segments| ==> NormalizeAll(segments)[k] == NormalizeSegment(segments[k])
  {
    hide Trim, Join, Split, TrimSlashes, NormalizeSegment, NormalizeAll, SplitAuthor;
    NormalizeAllAt(segments);
    var text := Join([root] + segments, '/');
    AuthorText(root, segments, lead, trail);
    SplitAuthorBy(author, lead + text + trail, root, segments);
  }

  lemma AuthorText(root: string, segments: seq<string>, lead: string, trail: string)
    requires (forall k :: 0 <= k < |lead| ==> lead[k] == '/') && (forall k :: 0 <= k < |trail| ==> trail[k] == '/')
    requires '/' !in root && root != "" && forall s <- segments :: '/' !in s
    requires segments != [] ==> segments[|segments| - 1] != ""
    ensures var text := Join([root] + segments, '/');
            text != "" && TrimSlashes(lead + text + trail) == text && Split(text, '/') == [root] + segments
  {
    var parts := [root] + segments;
    JoinEnds(root, segments);
    hide Join, Split, TrimSlashes;
    forall k | 0 <= k < |parts| ensures '/' !in parts[k] {
      assert k > 0 ==> parts[k] in segments;
    }
    SplitJoin(parts, '/');
    TrimSlashesAround(lead, Join(parts, '/'), trail);
  }

  lemma SplitAuthorBy(author: string, rest: string, root: string, segments: seq<string>)
    requires Trim(author) == SCHEME + rest && TrimSlashes(rest) != "" && Split(TrimSlashes(rest), '/') == [root] + segments
    ensures SplitAuthor(author) ==
              if Trim(root) == "" then None else Some(AuthorPath(SCHEME + Trim(root), NormalizeAll(segments)))
  {
    hide Trim, Split, TrimSlashes, NormalizeAll;
    assert (SCHEME + rest)[|SCHEME|..] == rest;
    assert ([root] + segments)[1..] == segments;
  }

  lemma {:induction false} NormalizeAllAt(parts: seq<string>)
    ensures forall k :: 0 <= k < |parts| ==> NormalizeAll(parts)[k] == NormalizeSegment(parts[k])
  {
    hide NormalizeSegment;
    if parts != [] {
      NormalizeAllAt(parts[1..]);
    }
  }

  lemma {:induction false} JoinEnds(root: string, segments: seq<string>)
    requires '/' !in root && root != "" && forall s <- segments :: '/' !in s
    requires segments != [] ==> segments[|segments| - 1] != ""
    ensures var text := Join([root] + segments, '/'); text != "" && text[0] != '/' && text[|text| - 1] != '/'
  {
    var parts := [root] + segments;
    if segments == [] {
      assert parts == [root];
    } else {
      var last := segments[|segments| - 1];
      var init := [root] + segments[..|segments| - 1];
      assert parts == init + [last];
      JoinSnoc(init, last, '/');
      assert last in segments;
      assert init[0] == root;
      JoinBegins(init);
    }
  }

  lemma JoinBegins(parts: seq<string>)
    requires parts != [] && parts[0] != ""
    ensures Join(parts, '/') != "" && Join(parts, '/')[0] == parts[0][0]
  {}

  lemma TrimSlashesAround(lead: string, text: string, trail: string)
    requires (forall k :: 0 <= k < |lead| ==> lead[k] == '/') && (forall k :: 0 <= k < |trail| ==> trail[k] == '/')
    requires text != "" && text[0] != '/' && text[|text| - 1] != '/'
    ensures TrimSlashes(lead + text + trail) == text
  {
    assert lead + text + trail == lead + (text + trail);
    LeadingDrop(lead, text + trail);
    TrailingDrop(text, trail);
  }

  lemma {:induction false} LeadingDrop(lead: string, text: string)
    requires forall k :: 0 <= k < |lead| ==> lead[k] == '/'
    requires text == "" || text[0] != '/'
    ensures DropLeading(lead + text, '/') == text
  {
    if lead == "" {
      assert lead + text == text;
    } else {
      assert (lead + text)[1..] == lead[1..] + text;
      LeadingDrop(lead[1..], text);
    }
  }

  lemma {:induction false} TrailingDrop(text: string, trail: string)
    requires forall k :: 0 <= k < |trail| ==> trail[k] == '/'
    requires text == "" || text[|text| - 1] != '/'
    ensures DropTrailing(text + trail, '/') == text
  {
    if trail == "" {
      assert text + trail == text;
    } else {
      assert (text + trail)[..|text + trail| - 1] == text + trail[..|trail| - 1];
      TrailingDrop(text, trail[..|trail| - 1]);
    }
  }

  /** Anything without the scheme, or with nothing but slashes behind it, is refused. */
  lemma OtherAuthorsAreRefused(author: string)
    requires !HasPrefix(Trim(author), "agent://") || forall k :: 8 <= k < |Trim(author)| ==> Trim(author)[k] == '/'
    ensures SplitAuthor(author).None?
  {
    hide Trim;
    var a := Trim(author);
    if HasPrefix(a, SCHEME) {
      var rest := a[8..];
      assert rest + "" == rest;
      LeadingDrop(rest, "");
      assert DropTrailing("", '/') == "";
    }
  }

  lemma RootIsTrimmed(name: string)
    requires name != "" && Trimmed(name)
    ensures Trim(SCHEME + name) == SCHEME + name && HasPrefix(SCHEME + name, SCHEME)
  {
    var s := SCHEME + name;
    assert s[0] == 'a';
    assert SpaceAt(s) == 0;
    assert |name| >= 1 ==> s[|s| - 1] == name[|name| - 1];
    assert |name| >= 2 ==> s[|s| - 2] == name[|name| - 2];
    assert |name| >= 3 ==> s[|s| - 3] == name[|name| - 3];
    assert s[|SCHEME| - 1] == '/' && s[|SCHEME| - 2] == '/';
    assert SpaceBefore(s) == 0;
  }

  // ---------- Segment indexes ----------

  /** The first two words of the HMAC of a segment. */
  datatype Words = Words(first: nat, second: nat)

  ghost predicate MacOk(mac: string -> Words) {
    forall s :: mac(s).first < UINT32 && mac(s).second < UINT32
  }

  /** childIndexFromSegment: the top bit cleared, never zero. */
  function ChildIndex(mac: string -> Words, segment: string): nat {
    var words := mac(NormalizeSegment(segment));
    var value := words.first % HARDENED;
    var value' := if value == 0 then words.second % HARDENED else value;
    if value' == 0 then 1 else value'
  }

  /** The index is the first word of the HMAC without its top bit; when that leaves nothing, the second word without its top bit;
      and 1 when that leaves nothing either. */
  lemma ChildIndexIsMasked(mac: string -> Words, segment: string)
    requires MacOk(mac)
    ensures var words, index := mac(NormalizeSegment(segment)), ChildIndex(mac, segment);
            && 0 < index < HARDENED
            && (words.first != 0 && words.first != HARDENED ==> words.first == index || words.first == index + HARDENED)
            && ((words.first == 0 || words.first == HARDENED) && words.second != 0 && words.second != HARDENED ==>
                  words.second == index || words.second == index + HARDENED)
            && (words.first in {0, HARDENED} && words.second in {0, HARDENED} ==> index == 1)
  {}

  /** Segments that differ in case or surrounding white space only have one index; a blank one has that of "default". */
  lemma SegmentsNormalize(mac: string -> Words, a: string, b: string)
    requires Norm(a) == Norm(b) || (Norm(a) == "" && b == "default")
    ensures ChildIndex(mac, a) == ChildIndex(mac, b)
  {
    DefaultIsNormal();
    hide Norm;
  }

  lemma DefaultIsNormal()
    ensures Norm("default") == "default"
  {
    assert SpaceAt("default") == 0 && SpaceBefore("default") == 0;
    assert Trim("default") == "default";
    assert Lower("default") == "default";
  }

  function ChildIndexes(mac: string -> Words, segments: seq<string>): (out: seq<nat>)
    ensures |out| == |segments|
    ensures forall k :: 0 <= k < |out| ==> 0 < out[k] < HARDENED
  {
    if segments == [] then [] else [ChildIndex(mac, segments[0])] + ChildIndexes(mac, segments[1..])
  }

  // ---------- Decimal text ----------

  function DigitChar(d: nat): char
    requires d < 10
  {
    ('0' as int + d) as char
  }

  predicate IsDigit(c: char) {
    '0' <= c <= '9'
  }

  function DigitValue(c: char): nat
    requires IsDigit(c)
  {
    c as int - '0' as int
  }

  /** The "%d" of fmt. */
  function Decimal(n: nat): (s: string)
    ensures s != "" && forall k :: 0 <= k < |s| ==> IsDigit(s[k])
  {
    if n < 10 then [DigitChar(n)] else Decimal(n / 10) + [DigitChar(n % 10)]
  }

  function DecimalValue(s: string): nat
    requires forall k :: 0 <= k < |s| ==> IsDigit(s[k])
  {
    if s == "" then 0 else DecimalValue(s[..|s| - 1]) * 10 + DigitValue(s[|s| - 1])
  }

  lemma {:induction false} DecimalRoundTrip(n: nat)
    ensures DecimalValue(Decimal(n)) == n
  {
    if n < 10 {
      assert Decimal(n)[..0] == "";
    } else {
      DecimalRoundTrip(n / 10);
      var s := Decimal(n);
      assert s[..|s| - 1] == Decimal(n / 10);
    }
  }

  function DigitRun(s: string): (n: nat)
    ensures n <= |s| && forall k :: 0 <= k < n ==> IsDigit(s[k])
  {
    if s != "" && IsDigit(s[0]) then 1 + DigitRun(s[1..]) else 0
  }

  lemma {:induction false} DigitRunOfDigits(s: string)
    requires forall k :: 0 <= k < |s| ==> IsDigit(s[k])
    ensures DigitRun(s) == |s|
  {
    if s != "" {
      DigitRunOfDigits(s[1..]);
    }
  }

  /** fmt.Sscanf(part, "%d", &value) into a uint32: the leading digits; whatever follows them is ignored. */
  function ScanUint32(part: string): Option<nat> {
    var n := DigitRun(part);
    if n == 0 || DecimalValue(part[..n]) >= UINT32 then None else Some(DecimalValue(part[..n]))
  }

  // ---------- Paths ----------

  /** One segment of ParseDerivationPath. */
  function ParseSegment(raw: string): Option<nat> {
    var part := Trim(raw);
    if part == "" || !HasSuffix(part, "'") then None
    else
      var digits := part[..|part| - 1];
      if digits == "" then None
      else
        match ScanUint32(digits)
        case None => None
        case Some(value) => if value >= HARDENED then None else Some(value + HARDENED)
  }

  function ParseSegments(parts: seq<string>): Option<seq<nat>> {
    if parts == [] then Some([])
    else
      match ParseSegments(parts[..|parts| - 1])
      case None => None
      case Some(init) =>
        match ParseSegment(parts[|parts| - 1])
        case None => None
        case Some(index) => Some(init + [index])
  }

  /** ParseDerivationPath as a value; None stands for any of its errors. */
  function ParsePath(raw: string): Option<seq<nat>> {
    var path := Trim(raw);
    if path == "" then None
    else if path == "m" then Some([])
    else
      var parts := Split(path, '/');
      if Trim(parts[0]) != "m" then None else ParseSegments(parts[1..])
  }

  /** A path segment must be digits, then anything that is no digit, then an apostrophe; it counts if its digits stay below the
      hardened range, and is the index of that number there. */
  lemma SegmentParses(raw: string, digits: string, junk: string)
    requires digits != "" && (forall k :: 0 <= k < |digits| ==> IsDigit(digits[k])) && (junk == "" || !IsDigit(junk[0]))
    requires Trim(raw) == digits + junk + "'"
    ensures ParseSegment(raw) == if DecimalValue(digits) < HARDENED then Some(DecimalValue(digits) + HARDENED) else None
  {
    hide Trim, DecimalValue, DigitRun;
    var part := Trim(raw);
    assert part[|part| - 1] == '\'' && part[..|part| - 1] == digits + junk;
    DigitRunStops(digits, junk);
    assert (digits + junk)[..|digits|] == digits;
  }

  lemma {:induction false} DigitRunStops(digits: string, junk: string)
    requires (forall k :: 0 <= k < |digits| ==> IsDigit(digits[k])) && (junk == "" || !IsDigit(junk[0]))
    ensures DigitRun(digits + junk) == |digits|
  {
    if digits == "" {
      assert digits + junk == junk;
    } else {
      assert (digits + junk)[1..] == digits[1..] + junk;
      DigitRunStops(digits[1..], junk);
    }
  }

  lemma OtherSegmentsAreRefused(raw: string)
    requires var part := Trim(raw); part == "" || part[|part| - 1] != '\'' || !IsDigit(part[0])
    ensures ParseSegment(raw).None?
  {
    hide Trim;
    var part := Trim(raw);
    if |part| > 1 && HasSuffix(part, "'") {
      assert part[|part| - 1..][0] == '\'';
      assert part[..|part| - 1][0] == part[0];
    }
  }

  lemma {:induction false} LeadingZeros(digits: string)
    requires forall k :: 0 <= k < |digits| ==> IsDigit(digits[k])
    ensures DecimalValue("0" + digits) == DecimalValue(digits)
  {
    var padded := "0" + digits;
    if digits == "" {
      assert padded[..0] == "" && padded[0] == '0';
    } else {
      assert padded[..|padded| - 1] == "0" + digits[..|digits| - 1];
      LeadingZeros(digits[..|digits| - 1]);
    }
  }

  /** A path is read segment by segment: it is refused if its first part is not "m" or any other part is no segment. */
  lemma PathIsSegmentwise(raw: string)
    ensures Trim(raw) == "m" ==> ParsePath(raw) == Some([])
    ensures Trim(raw) == "" ==> ParsePath(raw).None?
    ensures var parts := Split(Trim(raw), '/');
            Trim(raw) != "m" && Trim(raw) != "" ==>
              && (ParsePath(raw).Some? <==>
                    Trim(parts[0]) == "m" && forall k :: 1 <= k < |parts| ==> ParseSegment(parts[k]).Some?)
              && (ParsePath(raw).Some? ==>
                    && |ParsePath(raw).value| == |parts| - 1
                    && forall k :: 1 <= k < |parts| ==> ParseSegment(parts[k]) == Some(ParsePath(raw).value[k - 1]))
  {
    hide Trim, Split, ParseSegment;
    var parts := Split(Trim(raw), '/');
    SegmentsAreEach(parts[1..]);
  }

  lemma {:induction false} SegmentsAreEach(parts: seq<string>)
    ensures ParseSegments(parts).Some? <==> forall k :: 0 <= k < |parts| ==> ParseSegment(parts[k]).Some?
    ensures ParseSegments(parts).Some? ==>
              && |ParseSegments(parts).value| == |parts|
              && forall k :: 0 <= k < |parts| ==> ParseSegment(parts[k]) == Some(ParseSegments(parts).value[k])
  {
    hide ParseSegment;
    if parts != [] {
      SegmentsAreEach(parts[..|parts| - 1]);
    }
  }

  lemma {:induction false} ParseSegmentsStops(parts: seq<string>, k: nat)
    requires k <= |parts| && ParseSegments(parts[..k]).None?
    ensures ParseSegments(parts).None?
    decreases |parts| - k
  {
    if k == |parts| {
      assert parts[..k] == parts;
    } else {
      assert parts[..k + 1][..k] == parts[..k];
      ParseSegmentsStops(parts, k + 1);
    }
  }

  /** ParseDerivationPath's loop over the segments. */
  method ParseDerivationPath(raw: string) returns (indexes: Option<seq<nat>>)
    ensures indexes == ParsePath(raw)
  {
    hide Trim, Split, ParseSegment;
    var path := Trim(raw);
    if path == "" {
      return None;
    }
    if path == "m" {
      return Some([]);
    }
    var parts := Split(path, '/');
    if Trim(parts[0]) != "m" {
      return None;
    }
    var rest := parts[1..];
    var found: seq<nat> := [];
    for k := 0 to |rest|
      invariant ParseSegments(rest[..k]) == Some(found)
    {
      assert rest[..k + 1][..k] == rest[..k];
      var index := ParseSegment(rest[k]);
      if index.None? {
        ParseSegmentsStops(rest, k + 1);
        return None;
      }
      found := found + [index.value];
    }
    assert rest[..|rest|] == rest;
    return Some(found);
  }

  function SegmentText(index: nat): string {
    Decimal(index) + "'"
  }

  function SegmentTexts(indexes: seq<nat>): (out: seq<string>)
    ensures |out| == |indexes|
    ensures forall k :: 0 <= k < |out| ==> out[k] == SegmentText(indexes[k])
  {
    seq(|indexes|, k requires 0 <= k < |indexes| => SegmentText(indexes[k]))
  }

  /** The printed path: "m/0'" and one hardened index per author segment. */
  function PathText(indexes: seq<nat>): string {
    Join(["m"] + SegmentTexts([0] + indexes), '/')
  }

  /** PathFromURI. */
  function PathOf(mac: string -> Words, author: string): Option<string> {
    match SplitAuthor(author)
    case None => None
    case Some(p) => Some(PathText(ChildIndexes(mac, p.segments)))
  }

  /** PathFromURI's string builder. */
  method PathFromURI(mac: string -> Words, author: string) returns (path: Option<string>)
    ensures path == PathOf(mac, author)
  {
    var split := SplitAuthor(author);
    if split.None? {
      return None;
    }
    var segments := split.value.segments;
    hide SplitAuthor, Join, ChildIndex, Decimal;
    var text := "m/0'";
    RootPathText();
    for k := 0 to |segments|
      invariant text == PathText(ChildIndexes(mac, segments[..k]))
    {
      PathTextSnoc(mac, segments, k);
      text := text + "/" + Decimal(ChildIndex(mac, segments[k])) + "'";
    }
    assert segments[..|segments|] == segments;
    return Some(text);
  }

  lemma RootPathText()
    ensures PathText([]) == "m/0'"
  {
    var parts := ["m"] + SegmentTexts([0]);
    assert [0] + [] == [0];
    assert Decimal(0) == ['0'];
    assert SegmentText(0) == "0'";
    assert SegmentTexts([0]) == [SegmentText(0)];
    assert parts == ["m", "0'"];
    assert parts[1..] == ["0'"];
    assert Join(["0'"], '/') == "0'";
  }

  lemma {:induction false} ChildIndexesSnoc(mac: string -> Words, segments: seq<string>, last: string)
    ensures ChildIndexes(mac, segments + [last]) == ChildIndexes(mac, segments) + [ChildIndex(mac, last)]
  {
    hide ChildIndex;
    if segments == [] {
      assert segments + [last] == [last];
      assert [last][1..] == [];
    } else {
      assert (segments + [last])[1..] == segments[1..] + [last];
      ChildIndexesSnoc(mac, segments[1..], last);
    }
  }

  lemma PathTextSnoc(mac: string -> Words, segments: seq<string>, k: nat)
    requires k < |segments|
    ensures PathText(ChildIndexes(mac, segments[..k + 1]))
         == PathText(ChildIndexes(mac, segments[..k])) + "/" + Decimal(ChildIndex(mac, segments[k])) + "'"
  {
    hide Join, ChildIndex, Decimal;
    assert segments[..k + 1] == segments[..k] + [segments[k]];
    ChildIndexesSnoc(mac, segments[..k], segments[k]);
    var indexes, index := ChildIndexes(mac, segments[..k]), ChildIndex(mac, segments[k]);
    assert [0] + (indexes + [index]) == ([0] + indexes) + [index];
    assert SegmentTexts([0] + indexes + [index]) == SegmentTexts([0] + indexes) + [SegmentText(index)];
    var parts := ["m"] + SegmentTexts([0] + indexes);
    assert ["m"] + (SegmentTexts([0] + indexes) + [SegmentText(index)]) == parts + [SegmentText(index)];
    JoinSnoc(parts, SegmentText(index), '/');
  }

  // ---------- Round trip ----------

  lemma SegmentRoundTrip(index: nat)
    requires index < HARDENED
    ensures ParseSegment(SegmentText(index)) == Some(index + HARDENED)
    ensures '/' !in SegmentText(index)
  {
    var text := SegmentText(index);
    DecimalRoundTrip(index);
    DigitRunOfDigits(Decimal(index));
    assert text[|text| - 1] == '\'' && IsDigit(text[0]);
    assert SpaceAt(text) == 0 && SpaceBefore(text) == 0;
    assert Trim(text) == text;
    assert text[..|text| - 1] == Decimal(index);
    assert Decimal(index)[..|Decimal(index)|] == Decimal(index);
  }

  function Hardened(indexes: seq<nat>): (out: seq<nat>)
    ensures |out| == |indexes|
    ensures forall k :: 0 <= k < |out| ==> out[k] == indexes[k] + HARDENED
  {
    seq(|indexes|, k requires 0 <= k < |indexes| => indexes[k] + HARDENED)
  }

  lemma {:induction false} SegmentsRoundTrip(indexes: seq<nat>)
    requires forall k :: 0 <= k < |indexes| ==> indexes[k] < HARDENED
    ensures ParseSegments(SegmentTexts(indexes)) == Some(Hardened(indexes))
  {
    hide ParseSegment, Decimal;
    if indexes == [] {
    } else {
      var init, last := indexes[..|indexes| - 1], indexes[|indexes| - 1];
      SegmentsRoundTrip(init);
      SegmentRoundTrip(last);
      var texts := SegmentTexts(indexes);
      assert texts[..|texts| - 1] == SegmentTexts(init);
      assert Hardened(indexes) == Hardened(init) + [last + HARDENED];
    }
  }

  /** A printed path parses back to the same hardened indexes, root index first. */
  lemma PathTextRoundTrip(indexes: seq<nat>)
    requires forall k :: 0 <= k < |indexes| ==> indexes[k] < HARDENED
    ensures Trim(PathText(indexes)) == PathText(indexes) != ""
    ensures ParsePath(PathText(indexes)) == Some(Hardened([0] + indexes))
  {
    hide ParseSegments, ParseSegment, Decimal, Join, Split;
    var texts := SegmentTexts([0] + indexes);
    var parts := ["m"] + texts;
    forall k | 0 <= k < |parts| ensures '/' !in parts[k] {
      if k > 0 { SegmentRoundTrip(([0] + indexes)[k - 1]); }
    }
    SplitJoin(parts, '/');
    PathEnds(indexes);
    PathIsTrimmed(PathText(indexes));
    assert parts[1..] == texts;
    SegmentsRoundTrip([0] + indexes);
    assert Trim("m") == "m";
  }

  lemma PathEnds(indexes: seq<nat>)
    ensures var path := PathText(indexes); |path| >= 3 && path[0] == 'm' && path[|path| - 1] == '\''
  {
    hide Decimal;
    var texts := SegmentTexts([0] + indexes);
    var init, last := texts[..|texts| - 1], texts[|texts| - 1];
    assert ["m"] + texts == (["m"] + init) + [last];
    JoinSnoc(["m"] + init, last, '/');
    JoinStart(init);
  }

  lemma JoinStart(rest: seq<string>)
    ensures var j := Join(["m"] + rest, '/'); j != "" && j[0] == 'm'
  {}

  lemma PathIsTrimmed(path: string)
    requires |path| >= 3 && path[0] == 'm' && path[|path| - 1] == '\''
    ensures Trim(path) == path
  {
    assert SpaceAt(path) == 0 && SpaceBefore(path) == 0;
  }

  /** Every accepted author's printed path parses back to the root index and the child indexes, all hardened and in range. */
  lemma AuthorPathRoundTrip(mac: string -> Words, author: string)
    requires MacOk(mac) && SplitAuthor(author).Some?
    ensures var indexes := Hardened([0] + ChildIndexes(mac, SplitAuthor(author).value.segments));
            && ParsePath(PathOf(mac, author).value) == Some(indexes)
            && Trim(PathOf(mac, author).value) == PathOf(mac, author).value != ""
            && forall k :: 0 <= k < |indexes| ==> HARDENED <= indexes[k] < UINT32
  {
    hide SplitAuthor, ParsePath, PathText;
    PathTextRoundTrip(ChildIndexes(mac, SplitAuthor(author).value.segments));
  }
}
