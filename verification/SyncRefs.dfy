/** Sync refs: parsing magnets, sync URIs and bare hashes, and the canonical text they are stored in
    (internal/aip2p/sync.go:1293-1302, 1550-1644, 1725-1771, 1938-1964; internal/aip2p/magnet.go). */
module SyncRefs {
  import opened Options
  import opened Text
  import opened UrlText

  const SYNC_PREFIX := "aip2p-sync://"
  const MAGNET_PREFIX := "magnet:?"
  const BUNDLE := "aip2p-sync://bundle/"
  const BTIH := "urn:btih:"

  // ---------- The fields of a ref ----------

  /** What normalizeSyncRefQuery keeps: display name, peer hint ("" when absent) and the x.pe values in order. */
  datatype Query = Query(dn: string, peer: string, peers: seq<string>)

  function TrimAll(values: seq<string>): seq<string> {
    if values == [] then []
    else
      var init := TrimAll(values[..|values| - 1]);
      if Trim(values[|values| - 1]) == "" then init else init + [Trim(values[|values| - 1])]
  }

  function PeerHint(pairs: seq<Pair>): string {
    if Trim(Get(pairs, "peer")) != "" then Trim(Get(pairs, "peer")) else Trim(Get(pairs, "x.hn.peer"))
  }

  /** The hint is the first "peer" value, or, when that is blank or missing, the first "x.hn.peer" value. */
  lemma PeerHintFallsBack(u: string, v: string)
    ensures PeerHint([Pair("x.hn.peer", v)]) == Trim(v)
    ensures PeerHint([Pair("peer", u), Pair("x.hn.peer", v)]) == if Trim(u) != "" then Trim(u) else Trim(v)
  {
    var one, two := [Pair("x.hn.peer", v)], [Pair("peer", u), Pair("x.hn.peer", v)];
    KeysDiffer();
    BlankTrims();
    assert one[1..] == [] && two[1..] == one;
    assert ValuesOf(one, "peer") == [] && ValuesOf(one, "x.hn.peer") == [v];
    assert ValuesOf(two, "peer") == [u] && ValuesOf(two, "x.hn.peer") == [v];
    hide Trim;
  }

  function NormalizeQuery(pairs: seq<Pair>): Query {
    Query(Trim(Get(pairs, "dn")), PeerHint(pairs), TrimAll(ValuesOf(pairs, "x.pe")))
  }

  /** normalizeSyncRefQuery's loop over the x.pe values. */
  method NormalizeSyncRefQuery(pairs: seq<Pair>) returns (q: Query)
    ensures q == NormalizeQuery(pairs)
  {
    hide Trim, Get, ValuesOf;
    var values := ValuesOf(pairs, "x.pe");
    var peers: seq<string> := [];
    for k := 0 to |values|
      invariant peers == TrimAll(values[..k])
    {
      assert values[..k + 1][..k] == values[..k];
      var value := Trim(values[k]);
      if value != "" {
        peers := peers + [value];
      }
    }
    assert values[..|values|] == values;
    return Query(Trim(Get(pairs, "dn")), PeerHint(pairs), peers);
  }

  ghost predicate NormalQuery(q: Query) {
    && IsBytes(q.dn) && Trim(q.dn) == q.dn
    && IsBytes(q.peer) && Trim(q.peer) == q.peer
    && NormalPeers(q.peers)
  }

  ghost predicate NormalPeers(peers: seq<string>) {
    forall k :: 0 <= k < |peers| ==> peers[k] != "" && IsBytes(peers[k]) && Trim(peers[k]) == peers[k]
  }

  lemma TrimBytes(s: string)
    requires IsBytes(s)
    ensures IsBytes(Trim(s)) && Trim(Trim(s)) == Trim(s)
  {
    TrimLeftIsSuffix(s);
    TrimRightIsPrefix(TrimLeft(s));
    TrimIsTrimmed(s);
  }

  lemma {:induction false} ValueBytes(pairs: seq<Pair>, key: string)
    requires BytePairs(pairs)
    ensures forall k :: 0 <= k < |ValuesOf(pairs, key)| ==> IsBytes(ValuesOf(pairs, key)[k])
    ensures IsBytes(Get(pairs, key))
  {
    if pairs != [] {
      ValueBytes(pairs[1..], key);
    }
  }

  lemma {:induction false} TrimAllNormal(values: seq<string>)
    requires forall k :: 0 <= k < |values| ==> IsBytes(values[k])
    ensures NormalPeers(TrimAll(values))
    ensures |TrimAll(values)| <= |values|
  {
    hide Trim, IsBytes;
    if values != [] {
      TrimAllNormal(values[..|values| - 1]);
      TrimBytes(values[|values| - 1]);
    }
  }

  lemma {:induction false} TrimAllStays(peers: seq<string>)
    requires NormalPeers(peers)
    ensures TrimAll(peers) == peers
  {
    hide Trim;
    if peers != [] {
      TrimAllStays(peers[..|peers| - 1]);
    }
  }

  lemma NormalizeIsNormal(pairs: seq<Pair>)
    requires BytePairs(pairs)
    ensures NormalQuery(NormalizeQuery(pairs))
  {
    ValueBytes(pairs, "dn");
    ValueBytes(pairs, "peer");
    ValueBytes(pairs, "x.hn.peer");
    ValueBytes(pairs, "x.pe");
    TrimBytes(Get(pairs, "dn"));
    TrimBytes(Get(pairs, "peer"));
    TrimBytes(Get(pairs, "x.hn.peer"));
    TrimAllNormal(ValuesOf(pairs, "x.pe"));
    hide Trim, Get, ValuesOf, IsBytes;
  }

  function Single(key: string, value: string): seq<Pair> {
    if value == "" then [] else [Pair(key, value)]
  }

  function Each(key: string, values: seq<string>): seq<Pair> {
    seq(|values|, k requires 0 <= k < |values| => Pair(key, values[k]))
  }

  /** The pairs of a normalized query, by increasing key. */
  function QueryPairs(q: Query): seq<Pair> {
    Single("dn", q.dn) + Single("peer", q.peer) + Each("x.pe", q.peers)
  }

  lemma {:induction false} ValuesAppend(a: seq<Pair>, b: seq<Pair>, key: string)
    ensures ValuesOf(a + b, key) == ValuesOf(a, key) + ValuesOf(b, key)
  {
    if a == [] {
      assert a + b == b;
    } else {
      assert (a + b)[1..] == a[1..] + b;
      ValuesAppend(a[1..], b, key);
    }
  }

  lemma SingleValues(key: string, value: string, other: string)
    ensures ValuesOf(Single(key, value), other) == if value != "" && key == other then [value] else []
  {
    assert Single(key, value) != [] ==> Single(key, value)[1..] == [];
  }

  lemma {:induction false} EachValues(key: string, values: seq<string>, other: string)
    ensures ValuesOf(Each(key, values), other) == if key == other then values else []
  {
    if values != [] {
      EachValues(key, values[1..], other);
      assert Each(key, values)[1..] == Each(key, values[1..]);
      assert [values[0]] + values[1..] == values;
    } else {
      assert Each(key, values) == [];
    }
  }

  lemma QueryValues(q: Query, key: string)
    ensures ValuesOf(QueryPairs(q), key) ==
              (if q.dn != "" && key == "dn" then [q.dn] else [])
              + (if q.peer != "" && key == "peer" then [q.peer] else [])
              + (if key == "x.pe" then q.peers else [])
  {
    ValuesAppend(Single("dn", q.dn) + Single("peer", q.peer), Each("x.pe", q.peers), key);
    ValuesAppend(Single("dn", q.dn), Single("peer", q.peer), key);
    SingleValues("dn", q.dn, key);
    SingleValues("peer", q.peer, key);
    EachValues("x.pe", q.peers, key);
    hide Single, Each;
  }

  lemma KeysDiffer()
    ensures "dn" != "peer" && "dn" != "x.pe" && "peer" != "x.pe" && "dn" != "x.hn.peer" && "peer" != "x.hn.peer"
    ensures "x.pe" != "x.hn.peer" && "xt" != "dn" && "xt" != "peer" && "xt" != "x.pe" && "xt" != "x.hn.peer"
  {
    assert "dn"[0] != "peer"[0];
    assert "xt"[1] != "x.pe"[1];
  }

  lemma QueryGets(q: Query)
    ensures Get(QueryPairs(q), "dn") == q.dn && Get(QueryPairs(q), "peer") == q.peer
    ensures Get(QueryPairs(q), "x.hn.peer") == "" && ValuesOf(QueryPairs(q), "x.pe") == q.peers
    ensures ValuesOf(QueryPairs(q), "xt") == []
  {
    KeysDiffer();
    QueryValues(q, "dn");
    QueryValues(q, "peer");
    QueryValues(q, "x.hn.peer");
    QueryValues(q, "x.pe");
    QueryValues(q, "xt");
    hide QueryPairs, ValuesOf;
    assert ValuesOf(QueryPairs(q), "dn") == if q.dn != "" then [q.dn] else [];
    assert ValuesOf(QueryPairs(q), "peer") == if q.peer != "" then [q.peer] else [];
    assert ValuesOf(QueryPairs(q), "x.hn.peer") == [];
    assert ValuesOf(QueryPairs(q), "x.pe") == q.peers;
  }

  lemma NormalizeRoundTrip(q: Query)
    requires NormalQuery(q)
    ensures NormalizeQuery(QueryPairs(q)) == q
  {
    QueryGets(q);
    TrimAllStays(q.peers);
    BlankTrims();
    hide QueryPairs, Trim, IsBytes, TrimAll, ValuesOf, Get;
  }

  /** Normalizing never adds a pair. */
  lemma {:induction false} ValueCounts(pairs: seq<Pair>)
    ensures |ValuesOf(pairs, "dn")| + |ValuesOf(pairs, "peer")| + |ValuesOf(pairs, "x.hn.peer")| + |ValuesOf(pairs, "x.pe")|
         <= |pairs|
  {
    if pairs != [] {
      KeysDiffer();
      ValueCounts(pairs[1..]);
    }
  }

  lemma NormalizeCount(pairs: seq<Pair>)
    requires BytePairs(pairs)
    ensures |QueryPairs(NormalizeQuery(pairs))| <= |pairs|
  {
    ValueCounts(pairs);
    ValueBytes(pairs, "x.pe");
    TrimAllNormal(ValuesOf(pairs, "x.pe"));
    BlankTrims();
    hide Trim, ValuesOf, TrimAll, IsBytes;
  }

  // ---------- Parsing ----------

  predicate IsInfoHash(s: string) {
    |s| == 40 && forall k :: 0 <= k < |s| ==> IsHexDigit(s[k])
  }

  predicate HasControl(s: string) {
    exists k :: 0 <= k < |s| && (s[k] < ' ' || s[k] as int == 0x7F)
  }

  /** The checks url.Parse makes on any ref: no control byte before the fragment, and a fragment that decodes. */
  predicate UrlOk(raw: string) {
    !HasControl(Before(raw, '#')) && Unescape(After(raw, '#'), false).Some?
  }

  /** The raw query of a URL. */
  function RawQuery(raw: string): string {
    After(Before(raw, '#'), '?')
  }

  predicate IsUserinfoChar(c: char) {
    IsUnreserved(c) || c in ":!$&'()*+,;=%@"
  }

  function LastIndex(s: string, c: char): int
    ensures -1 <= LastIndex(s, c) < |s|
  {
    if s == "" then -1 else if s[|s| - 1] == c then |s| - 1 else LastIndex(s[..|s| - 1], c)
  }

  /** parseAuthority succeeds and the host is "bundle" in some case: a host with a port, a bracket or an escape is not. */
  predicate IsBundle(authority: string) {
    var at := LastIndex(authority, '@');
    && Lower(authority[at + 1..]) == "bundle"
    && (at >= 0 ==>
          && (forall k :: 0 <= k < at ==> IsUserinfoChar(authority[k]))
          && Unescape(authority[..at], false).Some?)
  }

  datatype Parts = Parts(hash: string, query: Query)

  /** The sync-URI branch of ParseSyncRef. */
  function ParseSyncUri(raw: string): Option<Parts> {
    var location := Drop(Before(Before(raw, '#'), '?'), |SYNC_PREFIX|);
    var path := location[Index(location, '/')..];
    if !UrlOk(raw) || !IsBundle(Before(location, '/')) || Unescape(path, false).None? then None
    else
      var hash := TrimSlashes(Trim(Unescape(path, false).value));
      if !IsInfoHash(hash) then None else Some(Parts(Lower(hash), NormalizeQuery(ParseQuery(RawQuery(raw)))))
  }

  /** The test for "urn:btih:" on the lower-cased value. */
  predicate LooksBtih(value: string) {
    HasPrefix(AsciiFold(value), BTIH)
  }

  /** extractInfoHashFromMagnet: the first xt value that looks like a btih decides. */
  function HashOf(values: seq<string>): Option<string> {
    if values == [] then None
    else
      var value := Trim(values[0]);
      if !LooksBtih(value) then HashOf(values[1..])
      else
        var hash := Trim(Drop(value, 9));
        if IsInfoHash(hash) then Some(Lower(hash)) else None
  }

  /** The magnet branch of ParseSyncRef. */
  function ParseMagnet(raw: string): Option<Parts> {
    if !UrlOk(raw) then None
    else
      var pairs := ParseQuery(RawQuery(raw));
      match HashOf(ValuesOf(pairs, "xt"))
      case None => None
      case Some(hash) => Some(Parts(hash, NormalizeQuery(pairs)))
  }

  /** The branches of ParseSyncRef. A text that lower-cases to the sync prefix only through U+0130 has no scheme for
      url.Parse and is refused there; here it falls through to the last branch. */
  function ParseParts(raw: string): Option<Parts> {
    if HasPrefix(Lower(raw), SYNC_PREFIX) then ParseSyncUri(raw)
    else if HasPrefix(Lower(raw), MAGNET_PREFIX) then ParseMagnet(raw)
    else if IsInfoHash(raw) then Some(Parts(Lower(raw), Query("", "", [])))
    else None
  }

  /** canonicalSyncRefWithQuery, for the infohashes and queries that parsing yields. */
  function Canonical(p: Parts): string {
    var query := Encode(QueryPairs(p.query));
    BUNDLE + p.hash + if query == "" then "" else "?" + query
  }

  datatype SyncRef = SyncRef(raw: string, magnet: string, infoHash: string, hint: string)

  /** ParseSyncRef; None is any of its errors. */
  function ParseSyncRef(text: string): Option<SyncRef> {
    var raw := Trim(text);
    match ParseParts(raw)
    case None => None
    case Some(p) => Some(SyncRef(raw, Canonical(p), p.hash, p.query.peer))
  }

  // ---------- Canonical form ----------

  ghost predicate NormalParts(p: Parts) {
    IsInfoHash(p.hash) && Lower(p.hash) == p.hash && NormalQuery(p.query) && |QueryPairs(p.query)| <= MAX_PARAMS
  }

  lemma LowerHash(h: string)
    requires IsInfoHash(h)
    ensures IsInfoHash(Lower(h)) && Lower(Lower(h)) == Lower(h)
  {}

  lemma BytesBefore(s: string, c: char)
    requires IsBytes(s)
    ensures IsBytes(Before(s, c)) && IsBytes(After(s, c))
  {}

  lemma {:induction false} PieceCount(pieces: seq<string>)
    ensures |PiecesOf(pieces)| <= |pieces|
  {
    if pieces != [] {
      PieceCount(pieces[1..]);
    }
  }

  lemma ParsedQuery(raw: string)
    requires IsBytes(raw)
    ensures var pairs := ParseQuery(RawQuery(raw));
            BytePairs(pairs) && NormalQuery(NormalizeQuery(pairs)) && |QueryPairs(NormalizeQuery(pairs))| <= MAX_PARAMS
  {
    BytesBefore(raw, '#');
    BytesBefore(Before(raw, '#'), '?');
    ParsedBytes(RawQuery(raw));
    PieceCount(Split(RawQuery(raw), '&'));
    var pairs := ParseQuery(RawQuery(raw));
    NormalizeIsNormal(pairs);
    NormalizeCount(pairs);
    hide IsBytes, PiecesOf, Split, NormalizeQuery, QueryPairs, NormalQuery, BytePairs;
  }

  lemma {:induction false} HashIsNormal(values: seq<string>)
    requires HashOf(values).Some?
    ensures IsInfoHash(HashOf(values).value) && Lower(HashOf(values).value) == HashOf(values).value
  {
    if LooksBtih(Trim(values[0])) {
      LowerHash(Trim(Drop(Trim(values[0]), 9)));
    } else {
      HashIsNormal(values[1..]);
    }
    hide Trim, LooksBtih, IsInfoHash, Lower;
  }

  lemma ParsedIsNormal(raw: string)
    requires IsBytes(raw) && ParseParts(raw).Some?
    ensures NormalParts(ParseParts(raw).value)
  {
    hide IsBytes, Trim, NormalQuery, NormalizeQuery, QueryPairs, ParseQuery, RawQuery, Before, HashOf, IsInfoHash, Lower,
         TrimSlashes, UrlOk, IsBundle, HasPrefix;
    ParsedQuery(raw);
    if HasPrefix(Lower(raw), SYNC_PREFIX) {
      var location := Drop(Before(Before(raw, '#'), '?'), |SYNC_PREFIX|);
      LowerHash(TrimSlashes(Trim(Unescape(location[Index(location, '/')..], false).value)));
    } else if HasPrefix(Lower(raw), MAGNET_PREFIX) {
      HashIsNormal(ValuesOf(ParseQuery(RawQuery(raw)), "xt"));
    } else {
      LowerHash(raw);
      NoQuery();
    }
  }

  lemma NoQuery()
    ensures NormalQuery(Query("", "", [])) && QueryPairs(Query("", "", [])) == []
  {
    BlankTrims();
  }

  predicate IsRefChar(c: char) {
    IsQueryChar(c) || c == ':' || c == '/' || c == '?'
  }

  lemma BundleAlphabet(hash: string)
    requires IsInfoHash(hash)
    ensures forall k :: 0 <= k < |BUNDLE + hash| ==> IsRefChar((BUNDLE + hash)[k]) && (BUNDLE + hash)[k] !in "?#%"
  {
    assert forall k :: 0 <= k < |BUNDLE| ==> IsRefChar(BUNDLE[k]) && BUNDLE[k] !in "?#%";
    assert forall k :: 0 <= k < |hash| ==> IsHexDigit(hash[k]);
  }

  /** Every byte of a canonical ref is printable ASCII, and no white space, comma, '#' or ';'. */
  lemma CanonicalAlphabet(p: Parts)
    requires IsInfoHash(p.hash)
    ensures forall k :: 0 <= k < |Canonical(p)| ==> IsRefChar(Canonical(p)[k])
    ensures Trim(Canonical(p)) == Canonical(p)
    ensures !HasControl(Canonical(p)) && '#' !in Canonical(p) && ',' !in Canonical(p) && '\n' !in Canonical(p)
  {
    BundleAlphabet(p.hash);
    EncodeAlphabet(QueryPairs(p.query));
    RefCharsAreTrimmed(Canonical(p));
    hide Encode, IsQueryChar, QueryPairs, Trim;
  }

  lemma RefCharsAreTrimmed(s: string)
    requires forall k :: 0 <= k < |s| ==> IsRefChar(s[k])
    ensures Trim(s) == s && !HasControl(s) && '#' !in s && ',' !in s && '\n' !in s
  {
    assert SpaceAt(s) == 0 && SpaceBefore(s) == 0;
  }

  lemma {:induction false} NoLastIndex(s: string, c: char)
    requires c !in s
    ensures LastIndex(s, c) == -1
  {
    if s != "" {
      NoLastIndex(s[..|s| - 1], c);
    }
  }

  lemma SlashHash(hash: string)
    requires IsInfoHash(hash)
    ensures TrimSlashes("/" + hash) == hash
  {
    var path := "/" + hash;
    assert path[0] == '/' && path[1..] == hash;
    assert IsHexDigit(hash[0]) && IsHexDigit(hash[|hash| - 1]);
    assert DropLeading(hash, '/') == hash;
    assert DropLeading(path, '/') == hash;
  }

  lemma BundleHost()
    ensures IsBundle("bundle")
  {
    NoLastIndex("bundle", '@');
    assert "bundle"[0..] == "bundle";
    assert Lower("bundle") == "bundle";
  }

  lemma PathText(hash: string)
    requires IsInfoHash(hash)
    ensures Unescape("/" + hash, false) == Some("/" + hash) && Trim("/" + hash) == "/" + hash
  {
    var path := "/" + hash;
    assert forall k :: 1 <= k < |path| ==> IsHexDigit(path[k]);
    UnescapePlain(path);
    assert SpaceAt(path) == 0 && SpaceBefore(path) == 0;
  }

  lemma BundlePath(hash: string)
    requires IsInfoHash(hash)
    ensures Before("bundle/" + hash, '/') == "bundle" && IsBundle("bundle")
    ensures ("bundle/" + hash)[Index("bundle/" + hash, '/')..] == "/" + hash
    ensures Unescape("/" + hash, false) == Some("/" + hash)
    ensures TrimSlashes(Trim("/" + hash)) == hash
  {
    hide TrimSlashes, Trim, Unescape, IsBundle, IsInfoHash, Index;
    assert "bundle" + ['/'] + hash == "bundle/" + hash;
    CutAt("bundle", '/', hash);
    IndexAt("bundle", '/', hash);
    PathText(hash);
    SlashHash(hash);
    BundleHost();
  }

  lemma CanonicalCuts(p: Parts)
    requires IsInfoHash(p.hash)
    ensures var c := Canonical(p);
            && Before(c, '#') == c && After(c, '#') == ""
            && Before(c, '?') == BUNDLE + p.hash && RawQuery(c) == Encode(QueryPairs(p.query))
  {
    CanonicalAlphabet(p);
    BundleAlphabet(p.hash);
    var c, query := Canonical(p), Encode(QueryPairs(p.query));
    CutNowhere(c, '#');
    hide Encode, QueryPairs, IsRefChar, Index;
    if query == "" {
      assert c == BUNDLE + p.hash;
      CutNowhere(c, '?');
    } else {
      assert c == (BUNDLE + p.hash) + ['?'] + query;
      CutAt(BUNDLE + p.hash, '?', query);
    }
  }

  lemma BundlePrefix(rest: string)
    ensures HasPrefix(Lower(BUNDLE + rest), SYNC_PREFIX)
    ensures (BUNDLE + rest)[|SYNC_PREFIX|..] == "bundle/" + rest
  {
    var c := BUNDLE + rest;
    assert |SYNC_PREFIX| == 13 && BUNDLE == SYNC_PREFIX + "bundle/";
    assert c == SYNC_PREFIX + ("bundle/" + rest);
    assert Lower(c) == Lower(SYNC_PREFIX) + Lower("bundle/" + rest);
    assert Lower(SYNC_PREFIX) == SYNC_PREFIX;
  }

  lemma CanonicalPrefix(p: Parts)
    ensures HasPrefix(Lower(Canonical(p)), SYNC_PREFIX)
    ensures (BUNDLE + p.hash)[|SYNC_PREFIX|..] == "bundle/" + p.hash
  {
    var query := Encode(QueryPairs(p.query));
    var rest := p.hash + if query == "" then "" else "?" + query;
    hide Encode, QueryPairs, Lower, HasPrefix;
    BundlePrefix(p.hash);
    BundlePrefix(rest);
    assert Canonical(p) == BUNDLE + rest;
  }

  lemma NoFragment()
    ensures Unescape("", false) == Some("")
  {}

  /** Parsing the canonical text of normal parts gives back exactly those parts. */
  lemma CanonicalParses(p: Parts)
    requires NormalParts(p)
    ensures ParseParts(Canonical(p)) == Some(p)
    ensures Trim(Canonical(p)) == Canonical(p)
  {
    hide Canonical, QueryPairs, Encode, Lower, HasPrefix, Trim, TrimSlashes, Index, HasControl, IsInfoHash, NormalizeQuery,
         ParseQuery, NormalQuery, IsBundle, RawQuery, Unescape, IsRefChar, Before, After;
    CanonicalAlphabet(p);
    CanonicalCuts(p);
    CanonicalPrefix(p);
    BundlePath(p.hash);
    QueryBytes(p.query);
    EncodeRoundTrip(QueryPairs(p.query));
    NormalizeRoundTrip(p.query);
    NoFragment();
    var c := Canonical(p);
    assert UrlOk(c);
    assert Drop(Before(Before(c, '#'), '?'), |SYNC_PREFIX|) == "bundle/" + p.hash;
    assert ParseSyncUri(c) == Some(p);
  }

  lemma QueryBytes(q: Query)
    requires NormalQuery(q)
    ensures BytePairs(QueryPairs(q))
  {
    hide IsBytes, Trim;
    KeyBytes();
  }

  /** Sync refs have a canonical form: the printed form of any accepted text parses to the same infohash and peer hint and
      prints as itself. */
  lemma CanonicalForm(text: string)
    requires IsBytes(text) && ParseSyncRef(text).Some?
    ensures var ref := ParseSyncRef(text).value;
            ParseSyncRef(ref.magnet) == Some(SyncRef(ref.magnet, ref.magnet, ref.infoHash, ref.hint))
  {
    TrimBytes(text);
    ParsedIsNormal(Trim(text));
    CanonicalParses(ParseParts(Trim(text)).value);
    hide ParseParts, Canonical, Trim, NormalParts;
  }

  /** Two accepted texts print alike exactly when they agree on infohash, display name, peer hint and peer addresses. */
  lemma CanonicalDecides(a: string, b: string)
    requires IsBytes(a) && IsBytes(b) && ParseSyncRef(a).Some? && ParseSyncRef(b).Some?
    ensures ParseSyncRef(a).value.magnet == ParseSyncRef(b).value.magnet <==> ParseParts(Trim(a)) == ParseParts(Trim(b))
  {
    TrimBytes(a);
    TrimBytes(b);
    ParsedIsNormal(Trim(a));
    ParsedIsNormal(Trim(b));
    CanonicalParses(ParseParts(Trim(a)).value);
    CanonicalParses(ParseParts(Trim(b)).value);
    hide ParseParts, Canonical, Trim, NormalParts;
  }

  predicate IsComment(line: string) {
    HasPrefix(line, "#") || HasPrefix(line, ";") || HasPrefix(line, "//")
  }

  /** splitCommaRefs. */
  function CommaRefs(value: string): seq<string> {
    TrimAll(Split(value, ','))
  }

  /** The printed form is one queue line, is no comment, and is one item of a comma-separated list. */
  lemma CanonicalIsOneLine(text: string)
    requires IsBytes(text) && ParseSyncRef(text).Some?
    ensures var line := ParseSyncRef(text).value.magnet;
            && Trim(line) == line != "" && '\n' !in line && !IsComment(line)
            && Split(line, '\n') == [line] && CommaRefs(line) == [line]
  {
    TrimBytes(text);
    ParsedIsNormal(Trim(text));
    var p := ParseParts(Trim(text)).value;
    CanonicalAlphabet(p);
    var line := Canonical(p);
    SplitPlain(line, '\n');
    SplitPlain(line, ',');
    StartsWithA(p);
    assert [line][..0] == [];
    hide ParseParts, Canonical, Trim, NormalParts, Split, IsRefChar;
    assert TrimAll([line]) == [line];
  }

  lemma StartsWithA(p: Parts)
    ensures Canonical(p) != "" && Canonical(p)[0] == 'a'
  {}

  // ---------- Display names and message links ----------

  function MagnetPairs(hash: string, name: string): seq<Pair> {
    Single("dn", name) + [Pair("xt", BTIH + hash)]
  }

  /** CanonicalMagnet, for a parsed infohash and a trimmed name. */
  function CanonicalMagnet(hash: string, name: string): string {
    MAGNET_PREFIX + Encode(MagnetPairs(hash, name))
  }

  /** magnetDisplayName of a text that parses. */
  function MagnetName(raw: string): string {
    if HasPrefix(Lower(raw), MAGNET_PREFIX) then Trim(Get(ParseQuery(RawQuery(raw)), "dn")) else ""
  }

  /** CanonicalizeMagnet. */
  function CanonicalizeMagnet(text: string): string {
    var raw := Trim(text);
    if raw == "" then ""
    else
      match ParseSyncRef(raw)
      case None => raw
      case Some(ref) => CanonicalMagnet(ref.infoHash, MagnetName(raw))
  }

  lemma MagnetPrefix(rest: string)
    ensures HasPrefix(Lower(MAGNET_PREFIX + rest), MAGNET_PREFIX) && !HasPrefix(Lower(MAGNET_PREFIX + rest), SYNC_PREFIX)
    ensures forall k :: 0 <= k < |MAGNET_PREFIX| ==> IsRefChar(MAGNET_PREFIX[k])
  {
    var m := MAGNET_PREFIX + rest;
    assert Lower(m) == Lower(MAGNET_PREFIX) + Lower(rest);
    assert Lower(MAGNET_PREFIX) == MAGNET_PREFIX;
    assert Lower(m)[0] == 'm' && SYNC_PREFIX[0] == 'a';
  }

  lemma MagnetText(rest: string)
    requires forall k :: 0 <= k < |rest| ==> IsQueryChar(rest[k])
    ensures var m := MAGNET_PREFIX + rest; Trim(m) == m && !HasControl(m) && '#' !in m
  {
    hide Lower, HasPrefix, Trim, HasControl, IsQueryChar;
    MagnetPrefix(rest);
    RefCharsAreTrimmed(MAGNET_PREFIX + rest);
  }

  lemma MagnetCuts(pairs: seq<Pair>)
    ensures var m := MAGNET_PREFIX + Encode(pairs);
            && UrlOk(m) && RawQuery(m) == Encode(pairs) && Trim(m) == m
            && HasPrefix(Lower(m), MAGNET_PREFIX) && !HasPrefix(Lower(m), SYNC_PREFIX)
  {
    hide Encode, Index, Lower, HasPrefix, Trim, IsRefChar, IsQueryChar, HasControl, Unescape, Before, After;
    var m := MAGNET_PREFIX + Encode(pairs);
    EncodeAlphabet(pairs);
    MagnetPrefix(Encode(pairs));
    MagnetText(Encode(pairs));
    CutNowhere(m, '#');
    assert "magnet:" + ['?'] + Encode(pairs) == m;
    CutAt("magnet:", '?', Encode(pairs));
    NoFragment();
  }

  lemma BtihText(hash: string)
    requires IsInfoHash(hash)
    ensures Trim(BTIH + hash) == BTIH + hash && Trim(hash) == hash
    ensures forall k :: 0 <= k < |BTIH + hash| ==> (BTIH + hash)[k] as int < 0x80
  {
    var value := BTIH + hash;
    assert forall k :: 0 <= k < |hash| ==> IsHexDigit(hash[k]);
    assert SpaceAt(value) == 0 && SpaceBefore(value) == 0;
    HexIsTrimmed(hash);
  }

  lemma BtihLooks(hash: string)
    requires forall k :: 0 <= k < |BTIH + hash| ==> (BTIH + hash)[k] as int < 0x80
    ensures LooksBtih(BTIH + hash) && Drop(BTIH + hash, 9) == hash
  {
    FoldAscii(BTIH + hash);
    assert Lower(BTIH + hash) == Lower(BTIH) + Lower(hash);
    assert Lower(BTIH) == BTIH;
    hide AsciiFold, Lower;
  }

  lemma BtihValue(hash: string)
    requires IsInfoHash(hash) && Lower(hash) == hash
    ensures HashOf([BTIH + hash]) == Some(hash) && IsBytes(BTIH + hash)
  {
    hide Trim, LooksBtih, Lower, IsInfoHash, Drop;
    BtihText(hash);
    BtihLooks(hash);
  }

  lemma MagnetValuesAt(hash: string, name: string, key: string)
    ensures ValuesOf(MagnetPairs(hash, name), key) ==
              (if name != "" && key == "dn" then [name] else []) + (if key == "xt" then [BTIH + hash] else [])
  {
    ValuesAppend(Single("dn", name), [Pair("xt", BTIH + hash)], key);
    SingleValues("dn", name, key);
    assert [Pair("xt", BTIH + hash)][1..] == [];
    hide Single;
  }

  lemma MagnetValues(hash: string, name: string)
    ensures ValuesOf(MagnetPairs(hash, name), "xt") == [BTIH + hash]
    ensures Get(MagnetPairs(hash, name), "dn") == name
    ensures NormalizeQuery(MagnetPairs(hash, name)) == Query(Trim(name), "", [])
  {
    hide ValuesOf, Trim, MagnetPairs;
    KeysDiffer();
    BlankTrims();
    MagnetValuesAt(hash, name, "dn");
    MagnetValuesAt(hash, name, "xt");
    MagnetValuesAt(hash, name, "peer");
    MagnetValuesAt(hash, name, "x.hn.peer");
    MagnetValuesAt(hash, name, "x.pe");
    assert ValuesOf(MagnetPairs(hash, name), "xt") == [BTIH + hash];
    assert ValuesOf(MagnetPairs(hash, name), "dn") == if name != "" then [name] else [];
    assert ValuesOf(MagnetPairs(hash, name), "peer") == [];
    assert ValuesOf(MagnetPairs(hash, name), "x.hn.peer") == [];
    assert ValuesOf(MagnetPairs(hash, name), "x.pe") == [];
  }

  lemma MagnetPairsBytes(hash: string, name: string)
    requires IsInfoHash(hash) && Lower(hash) == hash && IsBytes(name)
    ensures BytePairs(MagnetPairs(hash, name)) && |MagnetPairs(hash, name)| <= 2
  {
    hide Lower, IsInfoHash, HashOf, IsBytes;
    BtihValue(hash);
    KeyBytes();
  }

  lemma KeyBytes()
    ensures IsBytes("dn") && IsBytes("xt") && IsBytes("peer") && IsBytes("x.pe")
  {}

  /** A printed magnet parses back to its infohash and display name. */
  lemma MagnetParses(hash: string, name: string)
    requires IsInfoHash(hash) && Lower(hash) == hash && IsBytes(name) && Trim(name) == name
    ensures var m := CanonicalMagnet(hash, name);
            && Trim(m) == m != "" && MagnetName(m) == name
            && ParseParts(m) == Some(Parts(hash, Query(name, "", [])))
  {
    hide Encode, ParseQuery, RawQuery, UrlOk, HashOf, NormalizeQuery, Get, ValuesOf, Lower, HasPrefix, Trim, IsInfoHash,
         MagnetPairs, IsBytes, BytePairs;
    var pairs := MagnetPairs(hash, name);
    MagnetCuts(pairs);
    BtihValue(hash);
    MagnetValues(hash, name);
    MagnetPairsBytes(hash, name);
    EncodeRoundTrip(pairs);
  }

  /** Canonicalizing a magnet twice is canonicalizing it once, and keeps the infohash. */
  lemma CanonicalizeIdempotent(text: string)
    requires IsBytes(text)
    ensures var m := CanonicalizeMagnet(text);
            && CanonicalizeMagnet(m) == m
            && (ParseSyncRef(text).Some? <==> ParseSyncRef(m).Some?)
            && (ParseSyncRef(text).Some? ==> ParseSyncRef(m).value.infoHash == ParseSyncRef(text).value.infoHash)
  {
    var raw := Trim(text);
    TrimBytes(text);
    if ParseParts(raw).Some? {
      ParsedIsNormal(raw);
      MagnetNameIsNormal(raw);
      MagnetParses(ParseParts(raw).value.hash, MagnetName(raw));
      BlankFails();
    } else {
      BlankFails();
    }
    hide Trim, ParseParts, Canonical, CanonicalMagnet, MagnetName, IsBytes, NormalQuery, IsInfoHash, QueryPairs, Lower;
  }

  lemma BlankFails()
    ensures ParseParts("").None? && Trim("") == ""
  {
    assert Lower("") == "";
  }

  lemma MagnetNameIsNormal(raw: string)
    requires IsBytes(raw)
    ensures IsBytes(MagnetName(raw)) && Trim(MagnetName(raw)) == MagnetName(raw)
  {
    BytesBefore(raw, '#');
    BytesBefore(Before(raw, '#'), '?');
    ParsedBytes(RawQuery(raw));
    ValueBytes(ParseQuery(RawQuery(raw)), "dn");
    TrimBytes(Get(ParseQuery(RawQuery(raw)), "dn"));
    BlankTrims();
    hide Trim, ParseQuery, Before, After, Get, Lower, HasPrefix;
  }

  datatype Link = Link(infoHash: string, magnet: string)

  /** canonicalMessageLink of a link that is present. */
  function CanonicalLink(link: Link): Option<Link> {
    var magnet := CanonicalizeMagnet(link.magnet);
    var hash :=
      if Norm(link.infoHash) == "" && magnet != "" && ParseSyncRef(magnet).Some? then ParseSyncRef(magnet).value.infoHash
      else Norm(link.infoHash);
    if hash == "" && magnet == "" then None else Some(Link(hash, magnet))
  }

  /** What is signed of a reply link does not change when it is canonicalized again. */
  lemma LinkIsStable(link: Link)
    requires IsBytes(link.magnet) && CanonicalLink(link).Some?
    ensures CanonicalLink(CanonicalLink(link).value) == CanonicalLink(link)
  {
    hide Norm, CanonicalizeMagnet, ParseSyncRef, IsBytes;
    CanonicalizeIdempotent(link.magnet);
    NormIdempotent(link.infoHash);
    var magnet := CanonicalizeMagnet(link.magnet);
    if ParseSyncRef(magnet).Some? {
      HashIsNorm(link.magnet);
    }
  }

  lemma HashIsNorm(text: string)
    requires IsBytes(text) && ParseSyncRef(CanonicalizeMagnet(text)).Some?
    ensures var hash := ParseSyncRef(CanonicalizeMagnet(text)).value.infoHash; Norm(hash) == hash
  {
    CanonicalizeIdempotent(text);
    TrimBytes(text);
    ParsedIsNormal(Trim(text));
    var hash := ParseSyncRef(text).value.infoHash;
    HexIsTrimmed(hash);
    hide Trim, CanonicalizeMagnet, ParseParts, Canonical;
  }

  lemma HexIsTrimmed(hash: string)
    requires IsInfoHash(hash)
    ensures Trim(hash) == hash
  {
    assert SpaceAt(hash) == 0 && SpaceBefore(hash) == 0;
  }

  // ---------- Sanitizing a queued ref ----------

  function Kept(allowed: string -> bool, values: seq<string>): seq<string> {
    if values == [] then []
    else
      var init := Kept(allowed, values[..|values| - 1]);
      if allowed(values[|values| - 1]) then init + [values[|values| - 1]] else init
  }

  datatype Sanitized = Sanitized(text: string, changed: bool)

  function Settle(raw: string, text: string): Sanitized {
    if Trim(raw) == Trim(text) then Sanitized(raw, false) else Sanitized(text, true)
  }

  /** sanitizeQueuedSyncRef; allowed says of an x.pe value that it splits into host and port and the host may be used.
      A printed ref has no other keys than dn, peer and x.pe. */
  function SanitizeRef(allowed: string -> bool, raw: string): Option<Sanitized> {
    match ParseSyncRef(raw)
    case None => None
    case Some(ref) =>
      var query := NormalizeQuery(ParseQuery(RawQuery(ref.magnet)));
      var values := ValuesOf(ParseQuery(RawQuery(ref.magnet)), "x.pe");
      if values == [] || |Kept(allowed, values)| == |values| then Some(Settle(raw, ref.magnet))
      else Some(Settle(raw, Canonical(Parts(ref.infoHash, query.(peers := Kept(allowed, values))))))
  }

  /** sanitizeQueuedSyncRef's loop over the x.pe values. */
  method SanitizeQueuedSyncRef(allowed: string -> bool, raw: string) returns (out: Option<Sanitized>)
    ensures out == SanitizeRef(allowed, raw)
  {
    hide Trim, ParseSyncRef, NormalizeQuery, ParseQuery, RawQuery, ValuesOf, Canonical;
    var ref := ParseSyncRef(raw);
    if ref.None? {
      return None;
    }
    var pairs := ParseQuery(RawQuery(ref.value.magnet));
    var values := ValuesOf(pairs, "x.pe");
    if values == [] {
      return Some(Settle(raw, ref.value.magnet));
    }
    var kept: seq<string> := [];
    for k := 0 to |values|
      invariant kept == Kept(allowed, values[..k])
    {
      assert values[..k + 1][..k] == values[..k];
      if allowed(values[k]) {
        kept := kept + [values[k]];
      }
    }
    assert values[..|values|] == values;
    if |kept| == |values| {
      return Some(Settle(raw, ref.value.magnet));
    }
    return Some(Settle(raw, Canonical(Parts(ref.value.infoHash, NormalizeQuery(pairs).(peers := kept)))));
  }

  lemma {:induction false} KeptFacts(allowed: string -> bool, values: seq<string>)
    ensures |Kept(allowed, values)| <= |values|
    ensures |Kept(allowed, values)| == |values| ==> Kept(allowed, values) == values
    ensures forall k :: 0 <= k < |Kept(allowed, values)| ==> allowed(Kept(allowed, values)[k]) && Kept(allowed, values)[k] in values
  {
    if values != [] {
      KeptFacts(allowed, values[..|values| - 1]);
    }
  }

  /** Exactly the allowed values stay, each as often as before and in the same order. */
  lemma {:induction false} KeptIsExact(allowed: string -> bool, values: seq<string>, more: seq<string>)
    ensures forall v :: v in Kept(allowed, values) <==> v in values && allowed(v)
    ensures Kept(allowed, values + more) == Kept(allowed, values) + Kept(allowed, more)
    decreases |values| + |more|
  {
    if more != [] {
      var init, last := more[..|more| - 1], more[|more| - 1];
      KeptIsExact(allowed, values, init);
      assert (values + more)[..|values + more| - 1] == values + init;
    } else if values != [] {
      var init, last := values[..|values| - 1], values[|values| - 1];
      KeptIsExact(allowed, init, []);
      assert values + more == values && values == init + [last];
    }
  }

  lemma {:induction false} KeptStays(allowed: string -> bool, values: seq<string>)
    requires forall k :: 0 <= k < |values| ==> allowed(values[k])
    ensures Kept(allowed, values) == values
  {
    if values != [] {
      KeptStays(allowed, values[..|values| - 1]);
    }
  }

  /** What sanitizing makes of a ref: the same parts with only the allowed peer addresses left. */
  function Purged(allowed: string -> bool, p: Parts): Parts {
    p.(query := p.query.(peers := Kept(allowed, p.query.peers)))
  }

  lemma PurgedIsNormal(allowed: string -> bool, p: Parts)
    requires NormalParts(p)
    ensures NormalParts(Purged(allowed, p)) && Purged(allowed, Purged(allowed, p)) == Purged(allowed, p)
  {
    KeptFacts(allowed, p.query.peers);
    KeptStays(allowed, Kept(allowed, p.query.peers));
    hide IsBytes, Trim, IsInfoHash, Lower;
  }

  lemma SanitizeIs(allowed: string -> bool, raw: string)
    requires IsBytes(raw) && ParseSyncRef(raw).Some?
    ensures SanitizeRef(allowed, raw) == Some(Settle(raw, Canonical(Purged(allowed, ParseParts(Trim(raw)).value))))
  {
    TrimBytes(raw);
    ParsedIsNormal(Trim(raw));
    var p := ParseParts(Trim(raw)).value;
    CanonicalCuts(p);
    QueryBytes(p.query);
    EncodeRoundTrip(QueryPairs(p.query));
    NormalizeRoundTrip(p.query);
    QueryGets(p.query);
    KeptFacts(allowed, p.query.peers);
    hide Trim, ParseParts, Canonical, QueryPairs, Encode, ParseQuery, RawQuery, NormalizeQuery, ValuesOf, Get, IsBytes,
         Settle, NormalQuery, IsInfoHash, BytePairs;
    assert Purged(allowed, p) == Parts(p.hash, p.query.(peers := Kept(allowed, p.query.peers)));
    assert |Kept(allowed, p.query.peers)| == |p.query.peers| ==> Purged(allowed, p) == p;
  }

  /** Sanitizing succeeds exactly on refs that parse; it keeps the infohash, display name and peer hint, leaves only allowed
      peer addresses, and doing it again changes nothing. */
  lemma SanitizeKeepsRef(allowed: string -> bool, raw: string)
    requires IsBytes(raw)
    ensures SanitizeRef(allowed, raw).Some? <==> ParseSyncRef(raw).Some?
    ensures SanitizeRef(allowed, raw).Some? ==>
              var out := SanitizeRef(allowed, raw).value;
              && ParseParts(Trim(out.text)) == Some(Purged(allowed, ParseParts(Trim(raw)).value))
              && SanitizeRef(allowed, out.text) == Some(Sanitized(out.text, false))
              && (out.changed || out.text == raw)
  {
    if ParseSyncRef(raw).Some? {
      TrimBytes(raw);
      var p := ParseParts(Trim(raw)).value;
      ParsedIsNormal(Trim(raw));
      var clean := Purged(allowed, p);
      PurgedIsNormal(allowed, p);
      CanonicalParses(clean);
      SanitizeIs(allowed, raw);
      RefBytes(clean);
      SanitizeIs(allowed, Canonical(clean));
    }
    hide Trim, ParseParts, Canonical, SanitizeRef, Purged, NormalParts, IsBytes;
  }

  lemma RefBytes(p: Parts)
    requires IsInfoHash(p.hash)
    ensures IsBytes(Canonical(p))
  {
    hide Canonical, IsInfoHash, Trim, HasControl;
    CanonicalAlphabet(p);
  }

  /** A rewritten ref is again one trimmed line that is no comment. */
  lemma RewrittenIsOneLine(allowed: string -> bool, raw: string)
    requires IsBytes(raw) && SanitizeRef(allowed, raw).Some? && SanitizeRef(allowed, raw).value.changed
    ensures var text := SanitizeRef(allowed, raw).value.text;
            Trim(text) == text != "" && '\n' !in text && !IsComment(text) && IsBytes(text)
  {
    hide Trim, ParseParts, Canonical, SanitizeRef, Purged, NormalParts, IsBytes, IsRefChar, HasControl;
    SanitizeKeepsRef(allowed, raw);
    SanitizeIs(allowed, raw);
    TrimBytes(raw);
    ParsedIsNormal(Trim(raw));
    var p := ParseParts(Trim(raw)).value;
    PurgedIsNormal(allowed, p);
    NormalHash(Purged(allowed, p));
    CanonicalAlphabet(Purged(allowed, p));
    StartsWithA(Purged(allowed, p));
    RefBytes(Purged(allowed, p));
  }

  lemma NormalHash(p: Parts)
    requires NormalParts(p)
    ensures IsInfoHash(p.hash)
  {}
}
