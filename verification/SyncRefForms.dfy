/** Exactly which texts the ref parser accepts, put together from their parts: sync URIs, magnets and bare hashes
    (internal/aip2p/sync.go:1293-1302, 1550-1601, 1938-1964; internal/aip2p/magnet.go:96-143). */
module SyncRefForms {
  import opened Options
  import opened SyncQueues
  import opened SyncRefs
  import opened SyncScheduler
  import opened Text
  import opened UrlText

  // ---------- Texts from parts ----------

  /** What may follow a URL's path. */
  function Tail(query: Option<string>, fragment: Option<string>): string {
    (match query case None => "" case Some(q) => "?" + q) + (match fragment case None => "" case Some(f) => "#" + f)
  }

  function OrBlank(part: Option<string>): string {
    match part case None => "" case Some(s) => s
  }

  /** Taking such a text apart again. */
  lemma TailCuts(head: string, query: Option<string>, fragment: Option<string>)
    requires '#' !in head && '?' !in head && '#' !in OrBlank(query)
    ensures var raw := head + Tail(query, fragment);
            && Before(raw, '#') == head + Tail(query, None) && After(raw, '#') == OrBlank(fragment)
            && Before(Before(raw, '#'), '?') == head && RawQuery(raw) == OrBlank(query)
  {
    hide Index, Before, After, Tail, OrBlank;
    TailParts(query, fragment);
    var front := head + Tail(query, None);
    QueryCut(head, query);
    NoHash(head, query);
    FragmentCut(front, fragment);
    assert head + Tail(query, fragment) == front + Tail(None, fragment);
  }

  lemma TailParts(query: Option<string>, fragment: Option<string>)
    ensures Tail(query, fragment) == Tail(query, None) + Tail(None, fragment)
  {}

  lemma NoHash(head: string, query: Option<string>)
    requires '#' !in head && '#' !in OrBlank(query)
    ensures '#' !in head + Tail(query, None)
  {}

  lemma FragmentCut(front: string, fragment: Option<string>)
    requires '#' !in front
    ensures Before(front + Tail(None, fragment), '#') == front && After(front + Tail(None, fragment), '#') == OrBlank(fragment)
  {
    hide Index, Before, After;
    match fragment
    case None =>
      assert front + Tail(None, fragment) == front;
      CutNowhere(front, '#');
    case Some(f) =>
      assert front + Tail(None, fragment) == front + ['#'] + f;
      CutAt(front, '#', f);
  }

  lemma QueryCut(head: string, query: Option<string>)
    requires '?' !in head
    ensures Before(head + Tail(query, None), '?') == head && After(head + Tail(query, None), '?') == OrBlank(query)
  {
    hide Index, Before, After;
    match query
    case None =>
      assert head + Tail(query, None) == head;
      CutNowhere(head, '?');
    case Some(q) =>
      assert head + Tail(query, None) == head + ['?'] + q;
      CutAt(head, '?', q);
  }

  /** ASCII control bytes. */
  lemma ControlIs(s: string)
    ensures HasControl(s) <==> exists c <- s :: c as int < 32 || c as int == 127
  {
    if HasControl(s) {
      var k :| 0 <= k < |s| && (s[k] < ' ' || s[k] as int == 0x7F);
      assert s[k] in s;
    }
    if exists c <- s :: c as int < 32 || c as int == 127 {
      var c :| c in s && (c as int < 32 || c as int == 127);
      var k :| 0 <= k < |s| && s[k] == c;
    }
  }

  // ---------- Sync URIs ----------

  predicate UserinfoOk(user: string) {
    && Unescape(user, false).Some?
    && forall c <- user :: 'a' <= c <= 'z' || 'A' <= c <= 'Z' || '0' <= c <= '9' || c in "-._~:!$&'()*+,;=%@"
  }

  lemma {:induction false} LastIndexAt(user: string, c: char, rest: string)
    requires c !in rest
    ensures LastIndex(user + [c] + rest, c) == |user|
  {
    var s := user + [c] + rest;
    if rest != "" {
      assert s[..|s| - 1] == user + [c] + rest[..|rest| - 1];
      LastIndexAt(user, c, rest[..|rest| - 1]);
    }
  }

  /** The host must be "bundle" in any case; before it, text ending in '@' may stand that is proper userinfo. */
  lemma BundleAuthority(user: string, host: string)
    requires '@' !in host
    ensures IsBundle(host) <==> Lower(host) == "bundle"
    ensures IsBundle(user + "@" + host) <==> Lower(host) == "bundle" && UserinfoOk(user)
  {
    NoLastIndex(host, '@');
    assert host[0..] == host;
    var both := user + "@" + host;
    assert both == user + ['@'] + host;
    LastIndexAt(user, '@', host);
    assert both[|user| + 1..] == host && both[..|user|] == user;
    UserinfoChars(user, both);
    hide Unescape, Lower, LastIndex, IsUserinfoChar;
  }

  lemma UserinfoChars(user: string, both: string)
    requires |user| <= |both| && both[..|user|] == user
    ensures (forall k :: 0 <= k < |user| ==> IsUserinfoChar(both[k])) <==>
              forall c <- user :: 'a' <= c <= 'z' || 'A' <= c <= 'Z' || '0' <= c <= '9' || c in "-._~:!$&'()*+,;=%@"
  {
    forall c ensures IsUserinfoChar(c) <==>
                       'a' <= c <= 'z' || 'A' <= c <= 'Z' || '0' <= c <= '9' || c in "-._~:!$&'()*+,;=%@" {}
    hide IsUserinfoChar;
    assert forall k :: 0 <= k < |user| ==> both[k] == user[k];
    if forall k :: 0 <= k < |user| ==> IsUserinfoChar(both[k]) {
      forall c | c in user ensures IsUserinfoChar(c) {
        var k :| 0 <= k < |user| && user[k] == c;
        assert both[k] == c;
      }
    }
  }

  /** The scheme with its slashes, in any case. */
  lemma SchemeChars(scheme: string)
    requires Lower(scheme) == SYNC_PREFIX || Lower(scheme) == MAGNET_PREFIX[..7]
    ensures '#' !in scheme && '?' !in scheme && !HasControl(scheme)
  {
    forall k | 0 <= k < |scheme| ensures scheme[k] != '#' && scheme[k] != '?' && scheme[k] >= ' ' && scheme[k] as int != 0x7F {
      assert Lower(scheme)[k] == LowerChar(scheme[k]);
    }
  }

  lemma ControlConcat(a: string, b: string)
    ensures HasControl(a + b) <==> HasControl(a) || HasControl(b)
  {
    ControlIs(a);
    ControlIs(b);
    ControlIs(a + b);
    hide HasControl;
    assert forall c :: c in a + b <==> c in a || c in b;
  }

  /** A sync URI, whatever its parts: it is a ref exactly if nothing before the fragment is a control byte, the fragment and the
      path decode, the host is "bundle", and the decoded path, trimmed of white space and then of slashes, is 40 hex digits;
      and then it has that hash and the query's fields. */
  lemma SyncUriParses(scheme: string, authority: string, path: string, query: Option<string>, fragment: Option<string>)
    requires Lower(scheme) == SYNC_PREFIX
    requires forall c <- authority :: c !in "/?#"
    requires forall c <- path :: c !in "?#"
    requires '#' !in OrBlank(query)
    ensures var raw := scheme + authority + "/" + path + Tail(query, fragment);
            var decoded := Unescape("/" + path, false);
            ParseParts(raw) ==
              if !HasControl(authority + "/" + path) && !HasControl(OrBlank(query)) && Unescape(OrBlank(fragment), false).Some?
                 && IsBundle(authority) && decoded.Some? && IsInfoHash(TrimSlashes(Trim(decoded.value)))
              then Some(Parts(Lower(TrimSlashes(Trim(decoded.value))), NormalizeQuery(ParseQuery(OrBlank(query)))))
              else None
  {
    var raw := scheme + authority + "/" + path + Tail(query, fragment);
    SyncUriCuts(scheme, authority, path, query, fragment);
    SyncUriIsOk(scheme, authority, path, query, fragment);
    SyncUriByCuts(raw, authority + "/" + path, authority, "/" + path);
    hide Lower, HasPrefix, Trim, TrimSlashes, Unescape, IsBundle, HasControl, IsInfoHash, NormalizeQuery, ParseQuery, RawQuery,
         Index, Before, After, Tail, UrlOk, ParseParts, OrBlank;
  }

  /** The parser's answer, from where it cuts the text. */
  lemma SyncUriByCuts(raw: string, location: string, authority: string, path: string)
    requires HasPrefix(Lower(raw), SYNC_PREFIX) && Drop(Before(Before(raw, '#'), '?'), |SYNC_PREFIX|) == location
    requires Before(location, '/') == authority && Index(location, '/') <= |location| && location[Index(location, '/')..] == path
    ensures var decoded := Unescape(path, false);
            ParseParts(raw) ==
              if UrlOk(raw) && IsBundle(authority) && decoded.Some? && IsInfoHash(TrimSlashes(Trim(decoded.value)))
              then Some(Parts(Lower(TrimSlashes(Trim(decoded.value))), NormalizeQuery(ParseQuery(RawQuery(raw)))))
              else None
  {
    hide Lower, HasPrefix, Trim, TrimSlashes, Unescape, IsBundle, IsInfoHash, NormalizeQuery, ParseQuery, RawQuery, Index, Before,
         After, UrlOk;
  }

  lemma SyncUriCuts(scheme: string, authority: string, path: string, query: Option<string>, fragment: Option<string>)
    requires Lower(scheme) == SYNC_PREFIX
    requires forall c <- authority :: c !in "/?#"
    requires forall c <- path :: c !in "?#"
    requires '#' !in OrBlank(query)
    ensures var raw := scheme + authority + "/" + path + Tail(query, fragment);
            var location := authority + "/" + path;
            && HasPrefix(Lower(raw), SYNC_PREFIX)
            && Before(raw, '#') == scheme + location + Tail(query, None) && After(raw, '#') == OrBlank(fragment)
            && Drop(Before(Before(raw, '#'), '?'), |SYNC_PREFIX|) == location && RawQuery(raw) == OrBlank(query)
            && Before(location, '/') == authority && Index(location, '/') <= |location|
            && location[Index(location, '/')..] == "/" + path
  {
    LocationCuts(authority, path);
    SchemeChars(scheme);
    hide Lower, HasPrefix, RawQuery, Index, Before, After, Tail, HasControl, OrBlank;
    var location := authority + "/" + path;
    assert scheme + authority + "/" + path + Tail(query, fragment) == scheme + location + Tail(query, fragment);
    LocatedCuts(scheme, location, query, fragment);
  }

  lemma LocationCuts(authority: string, path: string)
    requires forall c <- authority :: c !in "/?#"
    requires forall c <- path :: c !in "?#"
    ensures var location := authority + "/" + path;
            && '#' !in location && '?' !in location
            && Before(location, '/') == authority && Index(location, '/') <= |location|
            && location[Index(location, '/')..] == "/" + path
  {
    hide Index, Before, After;
    var location := authority + "/" + path;
    assert location == authority + ['/'] + path;
    forall c | c in location ensures c != '#' && c != '?' {
      assert c in authority || c == '/' || c in path;
    }
    CutAt(authority, '/', path);
    IndexAt(authority, '/', path);
    assert location[|authority|..] == "/" + path;
  }

  lemma LocatedCuts(scheme: string, location: string, query: Option<string>, fragment: Option<string>)
    requires Lower(scheme) == SYNC_PREFIX && '#' !in scheme && '?' !in scheme
    requires '#' !in location && '?' !in location && '#' !in OrBlank(query)
    ensures var raw := scheme + location + Tail(query, fragment);
            && HasPrefix(Lower(raw), SYNC_PREFIX)
            && Before(raw, '#') == scheme + location + Tail(query, None) && After(raw, '#') == OrBlank(fragment)
            && Drop(Before(Before(raw, '#'), '?'), |SYNC_PREFIX|) == location && RawQuery(raw) == OrBlank(query)
  {
    SchemePrefix(scheme, location + Tail(query, fragment));
    hide Lower, HasPrefix, Index, Before, After, Tail, HasControl, OrBlank;
    assert scheme + location + Tail(query, fragment) == scheme + (location + Tail(query, fragment));
    TailCuts(scheme + location, query, fragment);
    assert (scheme + location)[|SYNC_PREFIX|..] == location;
  }

  lemma SyncUriIsOk(scheme: string, authority: string, path: string, query: Option<string>, fragment: Option<string>)
    requires Lower(scheme) == SYNC_PREFIX
    requires forall c <- authority :: c !in "/?#"
    requires forall c <- path :: c !in "?#"
    requires '#' !in OrBlank(query)
    ensures UrlOk(scheme + authority + "/" + path + Tail(query, fragment)) <==>
              && !HasControl(authority + "/" + path) && !HasControl(OrBlank(query))
              && Unescape(OrBlank(fragment), false).Some?
  {
    SyncUriCuts(scheme, authority, path, query, fragment);
    SchemeChars(scheme);
    ControlConcat(scheme + (authority + "/" + path), Tail(query, None));
    ControlConcat(scheme, authority + "/" + path);
    QueryControl(query);
    hide Lower, HasPrefix, Unescape, HasControl, Index, Before, After, Tail, OrBlank, RawQuery;
  }

  lemma QueryControl(query: Option<string>)
    ensures HasControl(Tail(query, None)) <==> HasControl(OrBlank(query))
  {
    if query.Some? {
      assert Tail(query, None) == "?" + query.value;
      ControlConcat("?", query.value);
    } else {
      assert Tail(query, None) == "";
    }
  }

  lemma SchemePrefix(scheme: string, rest: string)
    requires Lower(scheme) == SYNC_PREFIX
    ensures HasPrefix(Lower(scheme + rest), SYNC_PREFIX) && |scheme| == |SYNC_PREFIX|
  {
    assert Lower(scheme + rest) == Lower(scheme) + Lower(rest);
  }

  // ---------- Magnets ----------

  /** A magnet, whatever its query: it is a ref exactly if nothing before the fragment is a control byte, the fragment decodes,
      and its xt values give an infohash. */
  lemma MagnetParsesExactly(scheme: string, query: string, fragment: Option<string>)
    requires Lower(scheme) == "magnet:" && '#' !in query
    ensures var hash := HashOf(ValuesOf(ParseQuery(query), "xt"));
            ParseParts(scheme + "?" + query + Tail(None, fragment)) ==
              if !HasControl(query) && Unescape(OrBlank(fragment), false).Some? && hash.Some?
              then Some(Parts(hash.value, NormalizeQuery(ParseQuery(query)))) else None
  {
    MagnetCuts(scheme, query, fragment);
    MagnetIsOk(scheme, query, fragment);
    hide Lower, HasPrefix, Unescape, HasControl, HashOf, NormalizeQuery, ParseQuery, RawQuery, Tail, ValuesOf, UrlOk, ParseSyncUri;
  }

  lemma MagnetCuts(scheme: string, query: string, fragment: Option<string>)
    requires Lower(scheme) == "magnet:" && '#' !in query
    ensures var raw := scheme + "?" + query + Tail(None, fragment);
            && HasPrefix(Lower(raw), MAGNET_PREFIX) && !HasPrefix(Lower(raw), SYNC_PREFIX)
            && RawQuery(raw) == query && After(raw, '#') == OrBlank(fragment)
            && Before(raw, '#') == scheme + Tail(Some(query), None)
  {
    MagnetScheme(scheme, "?" + query + Tail(None, fragment));
    assert MAGNET_PREFIX[..7] == "magnet:";
    SchemeChars(scheme);
    MagnetTail(query, fragment);
    hide Lower, HasPrefix, RawQuery, Index, Before, After, Tail, HasControl;
    assert scheme + "?" + query + Tail(None, fragment) == scheme + ("?" + query + Tail(None, fragment));
    TailCuts(scheme, Some(query), fragment);
  }

  lemma MagnetTail(query: string, fragment: Option<string>)
    ensures "?" + query + Tail(None, fragment) == Tail(Some(query), fragment)
  {}

  lemma MagnetScheme(scheme: string, rest: string)
    requires Lower(scheme) == "magnet:" && rest != "" && rest[0] == '?'
    ensures HasPrefix(Lower(scheme + rest), MAGNET_PREFIX) && !HasPrefix(Lower(scheme + rest), SYNC_PREFIX)
  {
    var low := Lower(scheme + rest);
    assert low == "magnet:" + Lower(rest) && low[7] == '?';
    assert MAGNET_PREFIX == "magnet:" + "?";
    assert low[0] == 'm' && SYNC_PREFIX[0] == 'a';
  }

  lemma MagnetIsOk(scheme: string, query: string, fragment: Option<string>)
    requires Lower(scheme) == "magnet:" && '#' !in query
    ensures UrlOk(scheme + "?" + query + Tail(None, fragment)) <==> !HasControl(query) && Unescape(OrBlank(fragment), false).Some?
  {
    MagnetCuts(scheme, query, fragment);
    assert MAGNET_PREFIX[..7] == "magnet:";
    SchemeChars(scheme);
    ControlConcat(scheme, Tail(Some(query), None));
    QueryControl(Some(query));
    hide Lower, HasPrefix, Unescape, HasControl, Index, Before, After, Tail, RawQuery;
  }

  /** The first xt value that looks like a BitTorrent hash decides; values before it that do not are passed over. */
  lemma {:induction false} FirstHashDecides(before: seq<string>, value: string, rest: seq<string>)
    requires forall k :: 0 <= k < |before| ==> !LooksBtih(Trim(before[k]))
    ensures HashOf(before).None?
    ensures LooksBtih(Trim(value)) ==>
              HashOf(before + [value] + rest) ==
                var hash := Trim(Drop(Trim(value), 9));
                if IsInfoHash(hash) then Some(Lower(hash)) else None
  {
    hide LooksBtih, Trim, IsInfoHash, Lower;
    if before == [] {
      assert before + [value] + rest == [value] + rest;
    } else {
      FirstHashDecides(before[1..], value, rest);
      assert (before + [value] + rest)[1..] == before[1..] + [value] + rest;
    }
  }

  // ---------- Bare hashes ----------

  /** Forty hex digits in any case are a ref of their own, with nothing but the hash. */
  lemma BareHashParses(hash: string)
    requires |hash| == 40 && forall c <- hash :: '0' <= c <= '9' || 'a' <= c <= 'f' || 'A' <= c <= 'F'
    ensures IsInfoHash(hash)
    ensures ParseSyncRef(hash) == Some(SyncRef(hash, "aip2p-sync://bundle/" + Lower(hash), Lower(hash), ""))
  {
    forall k | 0 <= k < |hash| ensures IsHexDigit(hash[k]) { assert hash[k] in hash; }
    HexIsTrimmed(hash);
    assert IsHexDigit(hash[0]) && IsHexDigit(hash[1]);
    assert Lower(hash)[1] == LowerChar(hash[1]) && SYNC_PREFIX[1] == 'i';
    assert Lower(hash)[0] == LowerChar(hash[0]) && MAGNET_PREFIX[0] == 'm';
    NothingEncoded();
    hide Trim, Lower, Encode, HasPrefix, QueryPairs;
    var low := Lower(hash);
    assert low[0] != MAGNET_PREFIX[0] && low[1] != SYNC_PREFIX[1];
    BareParts(hash);
    assert "aip2p-sync://bundle/" + low + "" == "aip2p-sync://bundle/" + low;
    assert Canonical(Parts(low, Query("", "", []))) == "aip2p-sync://bundle/" + low;
  }

  lemma BareParts(hash: string)
    requires IsInfoHash(hash)
    requires |Lower(hash)| == 40 && Lower(hash)[0] != 'm' && Lower(hash)[1] != 'i'
    ensures ParseParts(hash) == Some(Parts(Lower(hash), Query("", "", [])))
  {
    hide Lower, IsInfoHash;
    assert SYNC_PREFIX[1] == 'i' && MAGNET_PREFIX[0] == 'm';
    assert Lower(hash)[..|SYNC_PREFIX|][1] == Lower(hash)[1];
    assert Lower(hash)[..|MAGNET_PREFIX|][0] == Lower(hash)[0];
  }

  lemma NothingEncoded()
    ensures Encode(QueryPairs(Query("", "", []))) == ""
  {
    EmptyQuery();
    assert QueryPairs(Query("", "", [])) == [];
  }

  /** Anything else is refused: a text that starts like neither a sync URI nor a magnet and is not forty hex digits. */
  lemma OtherTextsAreRefused(raw: string)
    requires !HasPrefix(Lower(raw), "aip2p-sync://") && !HasPrefix(Lower(raw), "magnet:?")
    requires |raw| != 40 || exists c <- raw :: !('0' <= c <= '9' || 'a' <= c <= 'f' || 'A' <= c <= 'F')
    ensures ParseParts(raw).None?
  {
    hide Lower, HasPrefix;
    if |raw| == 40 {
      var c :| c in raw && !('0' <= c <= '9' || 'a' <= c <= 'f' || 'A' <= c <= 'F');
      var k :| 0 <= k < |raw| && raw[k] == c;
      assert !IsHexDigit(raw[k]);
    }
  }

  // ---------- Queue lines ----------

  /** A queue line can be read exactly if it is blank, starts with '#', ';' or "//", or parses. */
  lemma LineIsReadable(row: string)
    ensures var line := Trim(row);
            Readable(row) <==>
              || line == "" || line[0] == '#' || line[0] == ';' || (|line| >= 2 && line[0] == '/' && line[1] == '/')
              || ParseSyncRef(line).Some?
  {
    hide Trim, ParseSyncRef;
    var line := Trim(row);
    assert HasPrefix(line, "//") <==> |line| >= 2 && line[..2] == "//";
    assert |line| >= 2 ==> (line[..2] == "//" <==> line[0] == '/' && line[1] == '/');
    assert |line| >= 1 ==> (HasPrefix(line, "#") <==> line[0] == '#') && (HasPrefix(line, ";") <==> line[0] == ';');
  }

  // ---------- Links ----------

  /** A display name comes from a magnet only: a sync URI or a bare hash becomes a magnet without one. */
  lemma NamesComeFromMagnets(text: string)
    requires ParseSyncRef(text).Some? && !HasPrefix(Lower(Trim(text)), "magnet:?")
    ensures CanonicalizeMagnet(text) == "magnet:?" + Encode([Pair("xt", "urn:btih:" + ParseSyncRef(text).value.infoHash)])
  {
    hide Trim, Lower, HasPrefix, Encode, ParseParts, Canonical;
    var raw := Trim(text);
    TrimTwice(text);
    BlankFails();
    assert Single("dn", "") + [Pair("xt", BTIH + ParseSyncRef(text).value.infoHash)]
        == [Pair("xt", BTIH + ParseSyncRef(text).value.infoHash)];
  }

  lemma TrimTwice(text: string)
    ensures Trim(Trim(text)) == Trim(text)
  {
    TrimIsTrimmed(text);
  }

  /** What is signed of a reply link: nothing if both its texts are blank; else the given infohash in lower case, or, when that is
      blank, the one its magnet holds, and the magnet in canonical form. */
  lemma LinkIsExact(link: Link)
    ensures var magnet := CanonicalizeMagnet(link.magnet);
            var parsed := ParseSyncRef(magnet);
            && (Norm(link.infoHash) != "" ==> CanonicalLink(link) == Some(Link(Norm(link.infoHash), magnet)))
            && (Norm(link.infoHash) == "" && parsed.Some? ==> CanonicalLink(link) == Some(Link(parsed.value.infoHash, magnet)))
            && (Norm(link.infoHash) == "" && parsed.None? ==>
                  CanonicalLink(link) == if Trim(link.magnet) == "" then None else Some(Link("", magnet)))
  {
    var magnet := CanonicalizeMagnet(link.magnet);
    BlankFails();
    TrimTwice(link.magnet);
    HashIsThere(magnet);
    BlankMagnet(link.magnet);
    hide Trim, Norm, ParseSyncRef, CanonicalizeMagnet;
  }

  lemma BlankMagnet(text: string)
    ensures CanonicalizeMagnet(text) == "" <==> Trim(text) == ""
  {
    hide Trim, ParseSyncRef, Encode, MagnetName;
    if Trim(text) != "" && ParseSyncRef(Trim(text)).Some? {
      assert CanonicalizeMagnet(text)[0] == MAGNET_PREFIX[0];
    }
  }

  lemma HashIsThere(text: string)
    ensures ParseSyncRef("").None?
    ensures ParseSyncRef(text).Some? ==> text != "" && ParseSyncRef(text).value.infoHash != ""
  {
    BlankFails();
    if ParseParts(Trim(text)).Some? {
      HashHasDigits(Trim(text));
    }
    hide Trim, ParseParts, Canonical;
  }

  lemma HashHasDigits(raw: string)
    requires ParseParts(raw).Some?
    ensures ParseParts(raw).value.hash != ""
  {
    hide Trim, NormalizeQuery, ParseQuery, RawQuery, TrimSlashes, UrlOk, IsBundle, HasPrefix, Unescape, Before, After, Index;
    if !HasPrefix(Lower(raw), SYNC_PREFIX) && HasPrefix(Lower(raw), MAGNET_PREFIX) {
      HashIsNormal(ValuesOf(ParseQuery(RawQuery(raw)), "xt"));
    }
  }
}
