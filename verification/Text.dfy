/** Go strings and the parts of package strings the modelled code uses.

    A Go string is a sequence of bytes: every char below stands for one byte (0 to 255). */
module Text {

  // ---------- White space ----------

  /** The white-space runes of package unicode that take three bytes in UTF-8. */
  predicate IsWideSpace(a: char, b: char, c: char) {
    || (a as int == 0xE1 && b as int == 0x9A && c as int == 0x80)
    || (a as int == 0xE2 && b as int == 0x80 && (0x80 <= c as int <= 0x8A || c as int in {0xA8, 0xA9, 0xAF}))
    || (a as int == 0xE2 && b as int == 0x81 && c as int == 0x9F)
    || (a as int == 0xE3 && b as int == 0x80 && c as int == 0x80)
  }

  predicate IsByteSpace(c: char) {
    9 <= c as int <= 13 || c == ' '
  }

  predicate IsTwoByteSpace(a: char, b: char) {
    a as int == 0xC2 && (b as int == 0x85 || b as int == 0xA0)
  }

  /** Bytes of the white-space rune that s begins with; 0 if it begins with none. */
  function SpaceAt(s: string): (n: nat)
    ensures n <= |s|
  {
    if |s| >= 1 && IsByteSpace(s[0]) then 1
    else if |s| >= 2 && IsTwoByteSpace(s[0], s[1]) then 2
    else if |s| >= 3 && IsWideSpace(s[0], s[1], s[2]) then 3
    else 0
  }

  /** Bytes of the white-space rune that s ends with; 0 if it ends with none. */
  function SpaceBefore(s: string): (n: nat)
    ensures n <= |s|
  {
    if |s| >= 1 && IsByteSpace(s[|s| - 1]) then 1
    else if |s| >= 2 && IsTwoByteSpace(s[|s| - 2], s[|s| - 1]) then 2
    else if |s| >= 3 && IsWideSpace(s[|s| - 3], s[|s| - 2], s[|s| - 1]) then 3
    else 0
  }

  function TrimLeft(s: string): string
    decreases |s|
  {
    if SpaceAt(s) == 0 then s else TrimLeft(s[SpaceAt(s)..])
  }

  function TrimRight(s: string): string
    decreases |s|
  {
    if SpaceBefore(s) == 0 then s else TrimRight(s[..|s| - SpaceBefore(s)])
  }

  /** strings.TrimSpace. */
  function Trim(s: string): (r: string)
  {
    TrimRight(TrimLeft(s))
  }

  lemma {:induction false} TrimLeftIsSuffix(s: string)
    ensures |TrimLeft(s)| <= |s| && TrimLeft(s) == s[|s| - |TrimLeft(s)|..] && SpaceAt(TrimLeft(s)) == 0
    decreases |s|
  {
    if SpaceAt(s) != 0 {
      TrimLeftIsSuffix(s[SpaceAt(s)..]);
    }
  }

  lemma {:induction false} TrimRightIsPrefix(s: string)
    ensures |TrimRight(s)| <= |s| && TrimRight(s) == s[..|TrimRight(s)|] && SpaceBefore(TrimRight(s)) == 0
    decreases |s|
  {
    if SpaceBefore(s) != 0 {
      TrimRightIsPrefix(s[..|s| - SpaceBefore(s)]);
    }
  }

  lemma SpaceAtPrefix(s: string, k: nat)
    requires k <= |s| && SpaceAt(s) == 0
    ensures SpaceAt(s[..k]) == 0
  {
    var p := s[..k];
    if |p| >= 1 { assert p[0] == s[0]; }
    if |p| >= 2 { assert p[1] == s[1]; }
    if |p| >= 3 { assert p[2] == s[2]; }
  }

  /** A trimmed text neither begins nor ends with white space, and trimming again changes nothing. */
  lemma TrimIsTrimmed(s: string)
    ensures Trimmed(Trim(s))
    ensures Trim(Trim(s)) == Trim(s)
  {
    TrimLeftIsSuffix(s);
    TrimRightIsPrefix(TrimLeft(s));
    SpaceAtPrefix(TrimLeft(s), |Trim(s)|);
  }

  /** A text that trimming leaves alone. */
  predicate Trimmed(s: string) {
    SpaceAt(s) == 0 && SpaceBefore(s) == 0
  }

  lemma BlankTrims()
    ensures Trim("") == ""
  {}

  /** Dropping a carriage return at the end of a line changes nothing once the line is trimmed. */
  lemma TrimDropsCarriageReturn(s: string)
    ensures Trim(s + "\r") == Trim(s)
  {
    TrimLeftAppend(s);
    if TrimLeft(s) == "" {
      assert Trim(s) == TrimRight("") == Trim(s + "\r");
    } else {
      var l := TrimLeft(s) + "\r";
      assert l[..|l| - 1] == TrimLeft(s);
      assert TrimRight(l) == TrimRight(TrimLeft(s));
    }
  }

  lemma {:induction false} TrimLeftAppend(s: string)
    ensures TrimLeft(s + "\r") == if TrimLeft(s) == "" then "" else TrimLeft(s) + "\r"
  {
    var n := SpaceAt(s);
    if s == "" {
      assert s + "\r" == "\r";
      assert TrimLeft("\r"[1..]) == "";
    } else if n != 0 {
      assert SpaceAt(s + "\r") == n;
      assert (s + "\r")[n..] == s[n..] + "\r";
      TrimLeftAppend(s[n..]);
    } else {
      assert SpaceAt(s + "\r") == 0;
    }
  }

  // ---------- Slashes ----------

  function DropLeading(s: string, c: char): string {
    if s != "" && s[0] == c then DropLeading(s[1..], c) else s
  }

  function DropTrailing(s: string, c: char): string {
    if s != "" && s[|s| - 1] == c then DropTrailing(s[..|s| - 1], c) else s
  }

  /** strings.Trim(s, "/"). */
  function TrimSlashes(s: string): string {
    DropTrailing(DropLeading(s, '/'), '/')
  }

  // ---------- Case ----------

  function LowerChar(c: char): char {
    if 'A' <= c <= 'Z' then (c as int + 32) as char else c
  }

  /** strings.ToLower on ASCII letters. */
  function Lower(s: string): (r: string)
    ensures |r| == |s|
    ensures forall k :: 0 <= k < |s| ==> r[k] == LowerChar(s[k])
  {
    seq(|s|, k requires 0 <= k < |s| => LowerChar(s[k]))
  }

  predicate IsLowerHex(c: char) {
    '0' <= c <= '9' || 'a' <= c <= 'f'
  }

  lemma LowerIdempotent(s: string)
    ensures Lower(Lower(s)) == Lower(s)
  {}

  lemma LowerSlice(s: string, i: nat, j: nat)
    requires i <= j <= |s|
    ensures Lower(s[i..j]) == Lower(s)[i..j]
  {}

  lemma {:induction false} TrimLeftLower(s: string)
    ensures TrimLeft(Lower(s)) == Lower(TrimLeft(s))
  {
    var n := SpaceAt(s);
    assert SpaceAt(Lower(s)) == n;
    if n != 0 {
      LowerSlice(s, n, |s|);
      assert Lower(s)[n..] == Lower(s)[n..|s|] && s[n..] == s[n..|s|];
      TrimLeftLower(s[n..]);
    }
  }

  lemma {:induction false} TrimRightLower(s: string)
    ensures TrimRight(Lower(s)) == Lower(TrimRight(s))
  {
    var n := SpaceBefore(s);
    assert SpaceBefore(Lower(s)) == n;
    if n != 0 {
      LowerSlice(s, 0, |s| - n);
      assert Lower(s)[..|s| - n] == Lower(s)[0..|s| - n] && s[..|s| - n] == s[0..|s| - n];
      TrimRightLower(s[..|s| - n]);
    }
  }

  /** Trimming and lower-casing, the normal form of keys, hashes and hex text. */
  function Norm(s: string): string {
    Lower(Trim(s))
  }

  lemma NormBlank(s: string)
    ensures Norm(s) == "" <==> Trim(s) == ""
  {
    hide Trim;
  }

  lemma NormIdempotent(s: string)
    ensures Norm(Norm(s)) == Norm(s) && Trim(Norm(s)) == Norm(s) && Norm(Trim(s)) == Norm(s)
  {
    TrimLeftLower(s);
    TrimRightLower(TrimLeft(s));
    TrimIsTrimmed(s);
    TrimLeftLower(Trim(s));
    TrimRightLower(TrimLeft(Trim(s)));
    assert Trim(Lower(Trim(s))) == Lower(Trim(Trim(s)));
    LowerIdempotent(Trim(s));
  }

  /** strings.ToLower as far as it can produce ASCII letters: from ASCII capitals, U+0130 and U+212A. Enough to look for an
      ASCII text in the lower-cased string, since every other letter lowers to a non-ASCII one. */
  function AsciiFold(s: string): string
    decreases |s|
  {
    if s == "" then ""
    else if |s| >= 2 && s[0] as int == 0xC4 && s[1] as int == 0xB0 then "i" + AsciiFold(s[2..])
    else if |s| >= 3 && s[0] as int == 0xE2 && s[1] as int == 0x84 && s[2] as int == 0xAA then "k" + AsciiFold(s[3..])
    else [LowerChar(s[0])] + AsciiFold(s[1..])
  }

  lemma {:induction false} FoldAscii(s: string)
    requires forall k :: 0 <= k < |s| ==> s[k] as int < 0x80
    ensures AsciiFold(s) == Lower(s)
  {
    if s != "" {
      FoldAscii(s[1..]);
      assert s == [s[0]] + s[1..];
    }
  }

  /** strings.Contains. */
  predicate Contains(s: string, part: string) {
    HasPrefix(s, part) || (s != "" && Contains(s[1..], part))
  }

  predicate StandsAt(s: string, part: string, i: nat) {
    i + |part| <= |s| && s[i..i + |part|] == part
  }

  lemma {:induction false} ContainsSomewhere(s: string, part: string)
    ensures Contains(s, part) <==> exists i: nat :: StandsAt(s, part, i)
  {
    assert HasPrefix(s, part) <==> StandsAt(s, part, 0);
    if s != "" {
      ContainsSomewhere(s[1..], part);
      forall i: nat ensures StandsAt(s[1..], part, i) <==> StandsAt(s, part, i + 1) {
        StandsLater(s, part, i);
      }
      hide HasPrefix, StandsAt;
      if i: nat :| StandsAt(s, part, i) {
        if i > 0 {
          assert StandsAt(s[1..], part, i - 1);
        }
      }
    }
  }

  lemma StandsLater(s: string, part: string, i: nat)
    requires s != ""
    ensures StandsAt(s[1..], part, i) <==> StandsAt(s, part, i + 1)
  {
    assert i + 1 + |part| <= |s| ==> s[1..][i..i + |part|] == s[i + 1..i + 1 + |part|];
  }

  // ---------- Splitting and joining ----------

  /** strings.Split(s, c) for a one-byte separator. */
  function Split(s: string, c: char): (parts: seq<string>)
    ensures |parts| >= 1
  {
    if s == "" then [""]
    else if s[0] == c then [""] + Split(s[1..], c)
    else
      var rest := Split(s[1..], c);
      [[s[0]] + rest[0]] + rest[1..]
  }

  /** strings.Join(parts, c). */
  function Join(parts: seq<string>, c: char): string {
    if parts == [] then ""
    else if |parts| == 1 then parts[0]
    else parts[0] + [c] + Join(parts[1..], c)
  }

  lemma {:induction false} SplitParts(s: string, c: char)
    ensures forall k :: 0 <= k < |Split(s, c)| ==> c !in Split(s, c)[k]
  {
    if s != "" {
      SplitParts(s[1..], c);
    }
  }

  lemma {:induction false} SplitPlain(s: string, c: char)
    requires c !in s
    ensures Split(s, c) == [s]
  {
    if s != "" {
      SplitPlain(s[1..], c);
      assert [s[0]] + s[1..] == s;
    }
  }

  /** Splitting at a separator inside the text. */
  lemma {:induction false} SplitAt(a: string, c: char, b: string)
    ensures Split(a + [c] + b, c) == Split(a, c) + Split(b, c)
  {
    var whole := a + [c] + b;
    if a == "" {
      assert whole[1..] == b;
    } else {
      assert whole[1..] == a[1..] + [c] + b;
      SplitAt(a[1..], c, b);
    }
  }

  lemma {:induction false} JoinSplit(s: string, c: char)
    ensures Join(Split(s, c), c) == s
  {
    if s != "" {
      JoinSplit(s[1..], c);
      var rest := Split(s[1..], c);
      if s[0] == c {
        assert ([""] + rest)[1..] == rest;
      } else {
        var all := [[s[0]] + rest[0]] + rest[1..];
        assert all[1..] == rest[1..];
      }
    }
  }

  lemma {:induction false} SplitJoin(parts: seq<string>, c: char)
    requires |parts| >= 1
    requires forall k :: 0 <= k < |parts| ==> c !in parts[k]
    ensures Split(Join(parts, c), c) == parts
  {
    if |parts| == 1 {
      SplitPlain(parts[0], c);
    } else {
      SplitJoin(parts[1..], c);
      SplitAt(parts[0], c, Join(parts[1..], c));
      SplitPlain(parts[0], c);
      assert parts == [parts[0]] + parts[1..];
    }
  }

  lemma {:induction false} JoinSnoc(parts: seq<string>, last: string, c: char)
    requires parts != []
    ensures Join(parts + [last], c) == Join(parts, c) + [c] + last
  {
    if |parts| == 1 {
      assert (parts + [last])[1..] == [last];
    } else {
      assert (parts + [last])[1..] == parts[1..] + [last];
      JoinSnoc(parts[1..], last, c);
    }
  }

  lemma {:induction false} SplitNotEmptyAtEnd(s: string, c: char)
    ensures var parts := Split(s, c); parts[|parts| - 1] == "" <==> s == "" || s[|s| - 1] == c
  {
    if s != "" {
      SplitNotEmptyAtEnd(s[1..], c);
      var rest := Split(s[1..], c);
      if s[0] == c {
        assert ([""] + rest)[|rest|] == rest[|rest| - 1];
      } else if |rest| > 1 {
        assert ([[s[0]] + rest[0]] + rest[1..])[|rest| - 1] == rest[|rest| - 1];
        assert s[1..] != "";
      } else {
        LastOfOnePart(s[1..], c);
      }
    }
  }

  lemma LastOfOnePart(s: string, c: char)
    requires |Split(s, c)| == 1
    ensures s == "" || s[|s| - 1] != c
  {
    SplitParts(s, c);
    JoinSplit(s, c);
  }

  /** bufio.MaxScanTokenSize: a scanner with its default buffer ends with an error at a line of so many bytes, not counting
      its newline, or more. */
  const MAX_SCAN_TOKEN := 65536

  predicate HasPrefix(s: string, prefix: string) {
    prefix <= s
  }

  predicate HasSuffix(s: string, suffix: string) {
    |suffix| <= |s| && s[|s| - |suffix|..] == suffix
  }
}
