/** What the sync-ref code uses of package net/url, down to the bytes: cutting, percent-encoding as in section 2.1 of
    RFC 3986, and queries as in the application/x-www-form-urlencoded section of the WHATWG URL Standard. */
module UrlText {
  import opened Options
  import opened Text

  /** Most pieces a query may have for package net/url to read it. */
  const MAX_PARAMS := 10000

  /** A Go string: every char is a byte. */
  predicate IsBytes(s: string) {
    forall k :: 0 <= k < |s| ==> s[k] as int < 256
  }

  // ---------- Cutting ----------

  /** Position of the first c in s; |s| if there is none. */
  function Index(s: string, c: char): (n: nat)
    ensures n <= |s| && c !in s[..n] && (n < |s| ==> s[n] == c)
  {
    if s == "" || s[0] == c then 0
    else
      var n := Index(s[1..], c);
      assert s[..n + 1] == [s[0]] + s[1..][..n];
      n + 1
  }

  /** strings.Cut: the text before and after the first c. */
  function Before(s: string, c: char): string {
    s[..Index(s, c)]
  }

  function After(s: string, c: char): string {
    if Index(s, c) == |s| then "" else s[Index(s, c) + 1..]
  }

  function Drop(s: string, n: nat): string {
    if n <= |s| then s[n..] else ""
  }

  lemma {:induction false} IndexAt(a: string, c: char, b: string)
    requires c !in a
    ensures Index(a + [c] + b, c) == |a|
  {
    if a != "" {
      assert (a + [c] + b)[1..] == a[1..] + [c] + b;
      IndexAt(a[1..], c, b);
    }
  }

  lemma CutAt(a: string, c: char, b: string)
    requires c !in a
    ensures Before(a + [c] + b, c) == a && After(a + [c] + b, c) == b
  {
    IndexAt(a, c, b);
  }

  lemma CutNowhere(s: string, c: char)
    requires c !in s
    ensures Before(s, c) == s && After(s, c) == ""
  {}

  // ---------- Percent-encoding ----------

  predicate IsHexDigit(c: char) {
    '0' <= c <= '9' || 'a' <= c <= 'f' || 'A' <= c <= 'F'
  }

  function HexValue(c: char): (n: nat)
    requires IsHexDigit(c)
    ensures n < 16
  {
    if '0' <= c <= '9' then c as int - '0' as int
    else if 'a' <= c <= 'f' then c as int - 'a' as int + 10
    else c as int - 'A' as int + 10
  }

  function HexDigit(n: nat): (c: char)
    requires n < 16
    ensures IsHexDigit(c) && HexValue(c) == n
  {
    if n < 10 then ('0' as int + n) as char else ('A' as int + n - 10) as char
  }

  /** unescape: percent escapes, and '+' as a space in queries. */
  function Unescape(s: string, plus: bool): Option<string>
    decreases |s|
  {
    if s == "" then Some("")
    else if s[0] == '%' then
      if |s| >= 3 && IsHexDigit(s[1]) && IsHexDigit(s[2]) then
        match Unescape(s[3..], plus)
        case None => None
        case Some(rest) => Some([(HexValue(s[1]) * 16 + HexValue(s[2])) as char] + rest)
      else None
    else
      match Unescape(s[1..], plus)
      case None => None
      case Some(rest) => Some([if plus && s[0] == '+' then ' ' else s[0]] + rest)
  }

  predicate IsUnreserved(c: char) {
    'a' <= c <= 'z' || 'A' <= c <= 'Z' || '0' <= c <= '9' || c == '-' || c == '_' || c == '.' || c == '~'
  }

  function EscapeByte(c: char): string {
    if IsUnreserved(c) then [c]
    else if c == ' ' then "+"
    else ['%', HexDigit(c as int / 16 % 16), HexDigit(c as int % 16)]
  }

  /** QueryEscape. */
  function Escape(s: string): string {
    if s == "" then "" else EscapeByte(s[0]) + Escape(s[1..])
  }

  predicate IsEscaped(c: char) {
    IsUnreserved(c) || c == '%' || c == '+'
  }

  lemma {:induction false} EscapeAlphabet(s: string)
    ensures forall k :: 0 <= k < |Escape(s)| ==> IsEscaped(Escape(s)[k])
    ensures s != "" ==> Escape(s) != ""
  {
    if s != "" {
      EscapeAlphabet(s[1..]);
      var first := EscapeByte(s[0]);
      assert forall k :: 0 <= k < |first| ==> IsEscaped(first[k]);
    }
  }

  lemma TwoDigits(n: nat)
    requires n < 256
    ensures n / 16 % 16 == n / 16 && n / 16 * 16 + n % 16 == n
  {}

  lemma UnescapeEscaped(hi: char, lo: char, rest: string)
    requires IsHexDigit(hi) && IsHexDigit(lo)
    ensures Unescape(['%', hi, lo] + rest, true) ==
              match Unescape(rest, true)
              case None => None
              case Some(r) => Some([(HexValue(hi) * 16 + HexValue(lo)) as char] + r)
  {
    assert (['%', hi, lo] + rest)[3..] == rest;
  }

  lemma ByteRoundTrip(c: char, rest: string)
    requires c as int < 256
    ensures Unescape(EscapeByte(c) + rest, true) ==
              match Unescape(rest, true) { case None => None case Some(r) => Some([c] + r) }
  {
    var s := EscapeByte(c) + rest;
    if IsUnreserved(c) || c == ' ' {
      assert s[1..] == rest;
    } else {
      hide Unescape, IsUnreserved, HexValue, HexDigit;
      var n := c as int;
      TwoDigits(n);
      UnescapeEscaped(HexDigit(n / 16 % 16), HexDigit(n % 16), rest);
      assert n as char == c;
    }
  }

  /** Unescaping undoes escaping. */
  lemma {:induction false} EscapeRoundTrip(s: string)
    requires IsBytes(s)
    ensures Unescape(Escape(s), true) == Some(s)
  {
    if s != "" {
      EscapeRoundTrip(s[1..]);
      ByteRoundTrip(s[0], Escape(s[1..]));
      assert [s[0]] + s[1..] == s;
    }
  }

  lemma {:induction false} UnescapeBytes(s: string, plus: bool)
    requires IsBytes(s) && Unescape(s, plus).Some?
    ensures IsBytes(Unescape(s, plus).value)
    decreases |s|
  {
    if s != "" {
      UnescapeBytes(if s[0] == '%' then s[3..] else s[1..], plus);
    }
  }

  lemma {:induction false} UnescapePlain(s: string)
    requires '%' !in s
    ensures Unescape(s, false) == Some(s)
  {
    if s != "" {
      UnescapePlain(s[1..]);
      assert [s[0]] + s[1..] == s;
    }
  }

  /** Text is escaped byte by byte. */
  lemma {:induction false} EscapeConcat(a: string, b: string)
    ensures Escape(a + b) == Escape(a) + Escape(b)
  {
    hide EscapeByte;
    if a == "" {
      assert a + b == b;
    } else {
      assert (a + b)[1..] == a[1..] + b;
      EscapeConcat(a[1..], b);
    }
  }

  /** Escaping leaves unreserved bytes alone, turns a space into '+', and writes any other byte as '%' and two hex digits. */
  lemma EscapeIsExact(c: char)
    requires c as int < 256
    ensures IsUnreserved(c) ==> Escape([c]) == [c]
    ensures c == ' ' ==> Escape([c]) == "+"
    ensures !IsUnreserved(c) && c != ' ' ==>
              exists hi, lo :: Escape([c]) == ['%', hi, lo] && IsUpperHex(hi, c as int / 16) && IsUpperHex(lo, c as int % 16)
  {
    OneEscaped(c);
    TwoDigits(c as int);
    if !IsUnreserved(c) && c != ' ' {
      assert IsUpperHex(HexDigit(c as int / 16 % 16), c as int / 16) && IsUpperHex(HexDigit(c as int % 16), c as int % 16);
    }
  }

  predicate IsUpperHex(c: char, n: int) {
    ('0' <= c <= '9' && n == c as int - 48) || ('A' <= c <= 'F' && n == c as int - 55)
  }

  lemma OneEscaped(c: char)
    ensures Escape([c]) == EscapeByte(c)
  {
    hide EscapeByte;
    var one := [c];
    assert one[1..] == "";
  }

  /** Hex digits of either case have the same value. */
  lemma HexCase(c: char)
    requires 'A' <= c <= 'F'
    ensures IsHexDigit(LowerChar(c)) && HexValue(LowerChar(c)) == HexValue(c) == c as int - 55
  {}

  /** A percent sign that two hex digits do not follow makes the whole text undecodable, wherever it stands. */
  lemma {:induction false} BadEscapeFails(a: string, b: string, plus: bool)
    requires '%' !in a && (|b| < 2 || !IsHexDigit(b[0]) || !IsHexDigit(b[1]))
    ensures Unescape(a + "%" + b, plus).None?
  {
    var s := a + "%" + b;
    if a == "" {
      assert s[1..] == b;
    } else {
      assert s[1..] == a[1..] + "%" + b;
      BadEscapeFails(a[1..], b, plus);
    }
  }

  /** In a query a plus sign is a space; text that needs no decoding is left alone. */
  lemma {:induction false} UnescapeQuery(s: string)
    requires '%' !in s
    ensures Unescape(s, true).Some? && |Unescape(s, true).value| == |s|
    ensures forall k :: 0 <= k < |s| ==> Unescape(s, true).value[k] == if s[k] == '+' then ' ' else s[k]
  {
    if s != "" {
      UnescapeQuery(s[1..]);
    }
  }

  // ---------- Queries ----------

  datatype Pair = Pair(key: string, value: string)

  /** One piece of a query; a piece that does not decode, or holds a ';', is skipped. */
  function PieceOf(piece: string): seq<Pair> {
    if piece == "" || ';' in piece then []
    else
      match (Unescape(Before(piece, '='), true), Unescape(After(piece, '='), true))
      case (Some(key), Some(value)) => [Pair(key, value)]
      case _ => []
  }

  function PiecesOf(pieces: seq<string>): seq<Pair> {
    if pieces == [] then [] else PieceOf(pieces[0]) + PiecesOf(pieces[1..])
  }

  /** ParseQuery, as the list of its key-value pairs in order; nothing once there are too many pieces. */
  function ParseQuery(query: string): seq<Pair> {
    var pieces := Split(query, '&');
    if |pieces| > MAX_PARAMS then [] else PiecesOf(pieces)
  }

  /** The values stored under one key. */
  function ValuesOf(pairs: seq<Pair>, key: string): seq<string> {
    if pairs == [] then []
    else (if pairs[0].key == key then [pairs[0].value] else []) + ValuesOf(pairs[1..], key)
  }

  /** Values.Get. */
  function Get(pairs: seq<Pair>, key: string): string {
    if ValuesOf(pairs, key) == [] then "" else ValuesOf(pairs, key)[0]
  }

  function EncodePair(p: Pair): string {
    Escape(p.key) + "=" + Escape(p.value)
  }

  function EncodeAll(pairs: seq<Pair>): (out: seq<string>)
    ensures |out| == |pairs|
    ensures forall k :: 0 <= k < |out| ==> out[k] == EncodePair(pairs[k])
  {
    seq(|pairs|, k requires 0 <= k < |pairs| => EncodePair(pairs[k]))
  }

  /** Values.Encode, for pairs listed by increasing key. */
  function Encode(pairs: seq<Pair>): string {
    Join(EncodeAll(pairs), '&')
  }

  ghost predicate BytePairs(pairs: seq<Pair>) {
    forall k :: 0 <= k < |pairs| ==> IsBytes(pairs[k].key) && IsBytes(pairs[k].value)
  }

  lemma EscapeHasNo(s: string, c: char)
    requires !IsEscaped(c)
    ensures c !in Escape(s)
  {
    EscapeAlphabet(s);
  }

  lemma PairRoundTrip(p: Pair)
    requires IsBytes(p.key) && IsBytes(p.value)
    ensures PieceOf(EncodePair(p)) == [p] && '&' !in EncodePair(p)
  {
    EscapeHasNo(p.key, '=');
    EscapeHasNo(p.key, ';');
    EscapeHasNo(p.key, '&');
    EscapeHasNo(p.value, ';');
    EscapeHasNo(p.value, '&');
    EscapeRoundTrip(p.key);
    EscapeRoundTrip(p.value);
    CutAt(Escape(p.key), '=', Escape(p.value));
    hide Escape, Unescape, Index, Before, After;
    assert Escape(p.key) + ['='] + Escape(p.value) == EncodePair(p);
  }

  lemma {:induction false} PiecesRoundTrip(pairs: seq<Pair>)
    requires BytePairs(pairs)
    ensures PiecesOf(EncodeAll(pairs)) == pairs
    ensures forall k :: 0 <= k < |pairs| ==> '&' !in EncodeAll(pairs)[k]
  {
    hide PieceOf, EncodePair;
    if pairs != [] {
      PairRoundTrip(pairs[0]);
      PiecesRoundTrip(pairs[1..]);
      assert EncodeAll(pairs)[1..] == EncodeAll(pairs[1..]);
      assert [pairs[0]] + pairs[1..] == pairs;
      forall k | 0 <= k < |pairs| ensures '&' !in EncodeAll(pairs)[k] {
        PairRoundTrip(pairs[k]);
      }
    }
  }

  /** Parsing an encoded query gives back its pairs. */
  lemma EncodeRoundTrip(pairs: seq<Pair>)
    requires BytePairs(pairs) && |pairs| <= MAX_PARAMS
    ensures ParseQuery(Encode(pairs)) == pairs
  {
    PiecesRoundTrip(pairs);
    if pairs != [] {
      SplitJoin(EncodeAll(pairs), '&');
    }
    hide PieceOf, EncodePair, EncodeAll;
    if pairs == [] {
      EmptyQuery();
    }
  }

  lemma EmptyQuery()
    ensures ParseQuery("") == [] && Encode([]) == ""
  {
    assert Split("", '&') == [""];
    assert [""][1..] == [];
  }

  /** A query is read piece by piece: the first '=' of a piece ends its key, a '+' in either part is a space, and a piece that is
      empty, holds a ';' or does not decode is passed over. */
  lemma QueryPieces(front: string, piece: string, back: string)
    requires '&' !in piece && |Split(front + ['&'] + piece + ['&'] + back, '&')| <= MAX_PARAMS
    ensures ParseQuery(front + ['&'] + piece + ['&'] + back) == ParseQuery(front) + PieceOf(piece) + ParseQuery(back)
    ensures piece == "" || ';' in piece ==> PieceOf(piece) == []
  {
    hide Split, PieceOf, PiecesOf;
    SplitAt(front + ['&'] + piece, '&', back);
    SplitAt(front, '&', piece);
    SplitPlain(piece, '&');
    PiecesAppend(Split(front, '&') + [piece], Split(back, '&'));
    PiecesAppend(Split(front, '&'), [piece]);
    OnePiece(piece);
  }

  lemma OnePiece(piece: string)
    ensures PiecesOf([piece]) == PieceOf(piece)
    ensures piece == "" || ';' in piece ==> PieceOf(piece) == []
  {
    assert [piece][1..] == [];
  }

  lemma PieceReads(key: string, value: string)
    requires '=' !in key && ';' !in key && ';' !in value
    ensures PieceOf(key + ['='] + value) ==
              if Unescape(key, true).Some? && Unescape(value, true).Some?
              then [Pair(Unescape(key, true).value, Unescape(value, true).value)] else []
    ensures key != "" ==> PieceOf(key) == if Unescape(key, true).Some? then [Pair(Unescape(key, true).value, "")] else []
  {
    CutAt(key, '=', value);
    CutNowhere(key, '=');
    hide Before, After, Index;
    assert Unescape("", true) == Some("");
    hide Unescape;
    assert ';' !in key + ['='] + value;
  }

  lemma {:induction false} PiecesAppend(a: seq<string>, b: seq<string>)
    ensures PiecesOf(a + b) == PiecesOf(a) + PiecesOf(b)
  {
    hide PieceOf;
    if a == [] {
      assert a + b == b;
    } else {
      assert (a + b)[1..] == a[1..] + b;
      PiecesAppend(a[1..], b);
    }
  }

  predicate IsQueryChar(c: char) {
    IsEscaped(c) || c == '=' || c == '&'
  }

  lemma {:induction false} EncodeAlphabet(pairs: seq<Pair>)
    ensures forall k :: 0 <= k < |Encode(pairs)| ==> IsQueryChar(Encode(pairs)[k])
    ensures pairs != [] ==> Encode(pairs) != ""
  {
    if pairs != [] {
      EscapeAlphabet(pairs[0].key);
      EscapeAlphabet(pairs[0].value);
      EncodeAlphabet(pairs[1..]);
      assert EncodeAll(pairs)[1..] == EncodeAll(pairs[1..]);
      hide Escape, IsEscaped;
    }
  }

  lemma {:induction false} ParsedBytes(query: string)
    requires IsBytes(query)
    ensures BytePairs(ParseQuery(query))
  {
    SplitBytes(query, '&');
    PieceBytes(Split(query, '&'));
    hide Split, PiecesOf;
  }

  lemma {:induction false} SplitBytes(s: string, c: char)
    requires IsBytes(s)
    ensures forall k :: 0 <= k < |Split(s, c)| ==> IsBytes(Split(s, c)[k])
  {
    if s != "" {
      SplitBytes(s[1..], c);
    }
  }

  lemma {:induction false} PieceBytes(pieces: seq<string>)
    requires forall k :: 0 <= k < |pieces| ==> IsBytes(pieces[k])
    ensures BytePairs(PiecesOf(pieces))
  {
    if pieces != [] {
      PieceBytes(pieces[1..]);
      var piece := pieces[0];
      if Unescape(Before(piece, '='), true).Some? { UnescapeBytes(Before(piece, '='), true); }
      if Unescape(After(piece, '='), true).Some? { UnescapeBytes(After(piece, '='), true); }
      hide Unescape, Before, After;
    }
  }
}
