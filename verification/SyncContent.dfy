/** Which queued refs count as content, and that nothing turns a content ref into a history manifest
    (internal/aip2p/sync.go:1069-1202, 1541-1548, 1646-1771). */
module SyncContent {
  import opened Options
  import opened Sorting
  import opened SyncQueueFiles
  import opened SyncQueueRuns
  import opened SyncQueues
  import opened SyncRefs
  import opened SyncScheduler
  import opened Text
  import opened UrlText

  // ---------- A marker between separators ----------

  /** No separator in the marker: it lies on one side of the separator. */
  lemma {:induction false} ContainsAcross(a: string, c: char, b: string, part: string)
    requires part != "" && c !in part
    ensures Contains(a + [c] + b, part) <==> Contains(a, part) || Contains(b, part)
  {
    var all := a + [c] + b;
    PrefixAcross(a, c, b, part);
    if a == "" {
      assert all[1..] == b;
    } else {
      assert all[1..] == a[1..] + [c] + b;
      ContainsAcross(a[1..], c, b, part);
    }
  }

  lemma PrefixAcross(a: string, c: char, b: string, part: string)
    requires c !in part
    ensures HasPrefix(a + [c] + b, part) <==> HasPrefix(a, part)
  {
    var all := a + [c] + b;
    assert all[|a|] == c;
    if |part| <= |a| {
      assert all[..|part|] == a[..|part|];
    }
  }

  function LowerAll(pieces: seq<string>): (out: seq<string>)
    ensures |out| == |pieces|
    ensures forall k :: 0 <= k < |out| ==> out[k] == Lower(pieces[k])
  {
    seq(|pieces|, k requires 0 <= k < |pieces| => Lower(pieces[k]))
  }

  lemma {:induction false} JoinContains(pieces: seq<string>, c: char, part: string)
    requires part != "" && c !in part && LowerChar(c) == c
    ensures Contains(Lower(Join(pieces, c)), part) <==> exists k :: 0 <= k < |pieces| && Contains(Lower(pieces[k]), part)
  {
    hide Contains;
    if pieces == [] {
      NothingContains(part);
      assert Lower(Join(pieces, c)) == "";
    } else if |pieces| == 1 {
      assert Join(pieces, c) == pieces[0];
    } else {
      var first, rest := pieces[0], pieces[1..];
      JoinContains(rest, c, part);
      assert Join(pieces, c) == first + [c] + Join(rest, c);
      assert Lower(first + [c] + Join(rest, c)) == Lower(first) + [c] + Lower(Join(rest, c));
      ContainsAcross(Lower(first), c, Lower(Join(rest, c)), part);
      if k :| 0 <= k < |pieces| && Contains(Lower(pieces[k]), part) {
        assert k > 0 ==> rest[k - 1] == pieces[k];
      }
      if j :| 0 <= j < |rest| && Contains(Lower(rest[j]), part) {
        assert pieces[j + 1] == rest[j];
      }
    }
  }

  lemma NothingContains(part: string)
    requires part != ""
    ensures !Contains("", part)
  {}

  // ---------- Sanitizing makes no manifest ----------

  const MARKER := "history-manifest"

  /** The marker in a printed ref: before the query, or in one of its pairs. */
  lemma MarkedParts(p: Parts)
    ensures Contains(Lower(Canonical(p)), MARKER) <==>
              || Contains(Lower(BUNDLE + p.hash), MARKER)
              || exists k :: 0 <= k < |QueryPairs(p.query)| && Contains(Lower(EncodePair(QueryPairs(p.query)[k])), MARKER)
  {
    hide Contains, QueryPairs, EncodePair;
    var pairs := QueryPairs(p.query);
    var pieces, query := EncodeAll(pairs), Encode(pairs);
    JoinContains(pieces, '&', MARKER);
    NothingContains(MARKER);
    var head := BUNDLE + p.hash;
    if query != "" {
      assert Canonical(p) == head + ['?'] + query;
      assert Lower(head + ['?'] + query) == Lower(head) + ['?'] + Lower(query);
      ContainsAcross(Lower(head), '?', Lower(query), MARKER);
    } else {
      assert Lower(query) == "";
      assert Canonical(p) == head;
    }
  }

  lemma PurgedPairs(allowed: string -> bool, p: Parts, k: nat) returns (j: nat)
    requires k < |QueryPairs(Purged(allowed, p).query)|
    ensures j < |QueryPairs(p.query)| && QueryPairs(p.query)[j] == QueryPairs(Purged(allowed, p).query)[k]
  {
    var head := Single("dn", p.query.dn) + Single("peer", p.query.peer);
    var kept := Kept(allowed, p.query.peers);
    KeptFacts(allowed, p.query.peers);
    if k < |head| {
      j := k;
    } else {
      assert kept[k - |head|] in p.query.peers;
      var i :| 0 <= i < |p.query.peers| && p.query.peers[i] == kept[k - |head|];
      j := |head| + i;
    }
  }

  lemma PurgedIsUnmarked(allowed: string -> bool, p: Parts)
    requires Contains(Lower(Canonical(Purged(allowed, p))), MARKER)
    ensures Contains(Lower(Canonical(p)), MARKER)
  {
    hide Contains, Canonical, QueryPairs, EncodePair, Purged;
    var clean := Purged(allowed, p);
    MarkedParts(clean);
    MarkedParts(p);
    PurgedHash(allowed, p);
    if !Contains(Lower(BUNDLE + p.hash), MARKER) {
      var k :| 0 <= k < |QueryPairs(clean.query)| && Contains(Lower(EncodePair(QueryPairs(clean.query)[k])), MARKER);
      var j := PurgedPairs(allowed, p, k);
    }
  }

  lemma PurgedHash(allowed: string -> bool, p: Parts)
    ensures Purged(allowed, p).hash == p.hash && Purged(allowed, p).query.dn == p.query.dn
  {}

  /** A ref with normal parts is a manifest exactly if its raw text, its printed form or its display name is marked. */
  lemma ManifestIs(raw: string, p: Parts)
    requires NormalParts(p)
    ensures IsManifest(SyncRef(raw, Canonical(p), p.hash, p.query.peer)) <==>
              || Contains(AsciiFold(raw), MARKER) || Contains(Lower(Canonical(p)), MARKER)
              || Contains(AsciiFold(p.query.dn), MARKER)
  {
    hide Contains, AsciiFold, Canonical, QueryPairs, Encode, ParseQuery, RawQuery, Get, Trim, IsBytes, IsInfoHash, Lower,
         BytePairs, NormalQuery, HasControl;
    CanonicalAlphabet(p);
    CanonicalCuts(p);
    QueryBytes(p.query);
    EncodeRoundTrip(QueryPairs(p.query));
    QueryGets(p.query);
    RefIsAscii(Canonical(p));
    FoldAscii(Canonical(p));
  }

  lemma RefIsAscii(s: string)
    requires forall k :: 0 <= k < |s| ==> IsRefChar(s[k])
    ensures forall k :: 0 <= k < |s| ==> s[k] as int < 0x80
  {}

  /** Sanitizing a row never turns a content ref into a manifest. */
  lemma SanitizedIsContent(allowed: string -> bool, row: string)
    requires IsBytes(row) && SanitizeRow(allowed, row).Some? && RowRef(row).Some?
    requires RowRef(SanitizeRow(allowed, row).value).Some?
    requires IsManifest(RowRef(SanitizeRow(allowed, row).value).value)
    ensures IsManifest(RowRef(row).value)
  {
    hide IsBytes, Trim, IsComment, SanitizeRef, Canonical, ParseParts, IsManifest, NormalParts, Purged, Contains, AsciiFold, Lower;
    var line := Trim(row);
    TrimBytes(row);
    SanitizeKeepsRef(allowed, line);
    if SanitizeRef(allowed, line).value.changed {
      var p, out := ParseParts(line).value, SanitizeRef(allowed, line).value.text;
      RewrittenIsOneLine(allowed, line);
      SanitizeIs(allowed, line);
      ParsedIsNormal(line);
      PurgedIsNormal(allowed, p);
      var clean := Purged(allowed, p);
      PurgedHash(allowed, p);
      assert out == Canonical(clean);
      ManifestIs(out, clean);
      ManifestIs(line, p);
      CanonicalFold(clean);
      if Contains(Lower(Canonical(clean)), MARKER) {
        PurgedIsUnmarked(allowed, p);
      }
    }
  }

  lemma CanonicalFold(p: Parts)
    requires NormalParts(p)
    ensures AsciiFold(Canonical(p)) == Lower(Canonical(p))
  {
    hide Canonical, AsciiFold, Lower, IsInfoHash, NormalQuery;
    CanonicalAlphabet(p);
    RefIsAscii(Canonical(p));
    FoldAscii(Canonical(p));
  }

  // ---------- The rows of one infohash ----------

  /** The row holds x and the scheduler takes it for a manifest. */
  predicate ManifestRow(row: string, x: string) {
    RowRef(row).Some? && RowRef(row).value.infoHash == x && IsManifest(RowRef(row).value)
  }

  predicate PlainRows(rows: seq<string>, x: string) {
    forall k :: 0 <= k < |rows| ==> !ManifestRow(rows[k], x)
  }

  predicate PlainIn(file: Option<string>, x: string) {
    PlainRows(Rows(Content(file)), x)
  }

  lemma PlainSub(rows: seq<string>, part: seq<string>, x: string)
    requires PlainRows(rows, x) && forall row :: row in part ==> row in rows || RowRef(row).None?
    ensures PlainRows(part, x)
  {
    hide RowRef, IsManifest;
    forall k | 0 <= k < |part| ensures !ManifestRow(part[k], x) {
      assert part[k] in part;
      if part[k] in rows {
        var j :| 0 <= j < |rows| && rows[j] == part[k];
      }
    }
  }

  lemma PlainOfLines(data: string, x: string)
    ensures PlainRows(Lines(data), x) <==> PlainRows(Rows(data), x)
  {
    hide ManifestRow, Rows, Lines, WellTerminated;
    RowsOf(data);
    BlankIsPlain(x);
    if PlainRows(Lines(data), x) {
      forall k | 0 <= k < |Rows(data)| ensures !ManifestRow(Rows(data)[k], x) {
        assert Lines(data)[k] == Rows(data)[k];
      }
    }
  }

  lemma BlankIsPlain(x: string)
    ensures !ManifestRow("", x)
  {
    BlankHasNoRef();
    hide RowRef, Holds, IsManifest;
  }

  lemma EnqueuedIsPlain(file: Option<string>, ref: SyncRef, x: string)
    requires GoodFile(file) && Queueable(ref) && PlainIn(file, x) && (x in KeysIn(file) || ref.infoHash != x)
    ensures PlainIn(Enqueued(file, ref), x)
  {
    hide IsBytes, WellTerminated, Rows, Keys, Queueable, AnyHolds, IsManifest, RowRef;
    EnqueueKeys(Content(file), ref);
    if EnqueueText(Content(file), ref).added {
      QueueableIsLine(ref);
      AppendAddsOneRow(Content(file), ref.magnet);
      QueueableRow(ref);
    }
  }

  lemma QueueableIsLine(ref: SyncRef)
    requires Queueable(ref)
    ensures ref.magnet != "" && '\n' !in ref.magnet
  {
    hide Trim, IsComment, ParseSyncRef, IsBytes;
  }

  lemma RemovedIsPlain(file: Option<string>, ref: SyncRef, x: string)
    requires PlainIn(file, x)
    ensures PlainIn(Removed(file, ref), x)
  {
    hide Rows, Lines, RemoveText, Without, DropEmptyTail, WellTerminated, Holds, RowRef, PlainRows;
    if file.Some? {
      RemoveIsRowwise(file.value, ref);
      PlainOfLines(file.value, x);
      WithoutPart(Lines(file.value), ref);
      DropEmptyTailIsPrefix(Without(Lines(file.value), ref));
      BlankHasNoRef();
      PlainSub(Lines(file.value), RemainingRows(Lines(file.value), ref), x);
    }
  }

  lemma RotatedIsPlain(file: Option<string>, ref: SyncRef, x: string)
    requires GoodFile(file) && Queueable(ref) && PlainIn(file, x) && ref.infoHash != x
    ensures PlainIn(Rotated(file, ref), x)
  {
    hide GoodFile, PlainIn, Queueable, Enqueued, Removed, InertIn, KeysIn;
    RemovedIsPlain(file, ref, x);
    RemovedKeys(file, ref);
    EnqueuedIsPlain(Removed(file, ref), ref, x);
  }

  lemma {:induction false} ReceivingIsPlain(file: Option<string>, rows: seq<string>, x: string)
    requires GoodFile(file) && ByteRows(rows) && PlainIn(file, x) && x in KeysIn(file)
    ensures GoodFile(Receiving(file, rows)) && PlainIn(Receiving(file, rows), x) && x in KeysIn(Receiving(file, rows))
  {
    hide GoodFile, KeysIn, Queueable, Enqueued, Moves, RowRef, IsBytes, PlainIn;
    if rows != [] {
      ReceivingIsPlain(file, rows[..|rows| - 1], x);
      var before, last := Receiving(file, rows[..|rows| - 1]), rows[|rows| - 1];
      MovesKeyFacts(last, x);
      if Moves(last) {
        RowBytes(last);
        EnqueuedKeys(before, RowRef(last).value);
        EnqueuedIsPlain(before, RowRef(last).value, x);
      }
    }
  }

  lemma {:induction false} SanitizedArePlain(allowed: string -> bool, rows: seq<string>, x: string)
    requires ByteRows(rows) && SanitizeRows(allowed, rows).Some? && PlainRows(rows, x)
    requires forall k :: 0 <= k < |rows| ==> '\n' !in rows[k]
    ensures PlainRows(SanitizeRows(allowed, rows).value, x)
  {
    hide IsBytes, RowRef, SanitizeRow, IsManifest;
    if rows != [] {
      var init, last := rows[..|rows| - 1], rows[|rows| - 1];
      SanitizedArePlain(allowed, init, x);
      var tail := SanitizeRow(allowed, last).value;
      SanitizedRow(allowed, last);
      if ManifestRow(tail, x) {
        SanitizedIsContent(allowed, last);
      }
    }
  }

  lemma CleanedIsPlain(file: Option<string>, allowed: string -> bool, x: string)
    requires GoodFile(file) && PlainIn(file, x)
    ensures PlainIn(Cleaned(file, allowed), x)
  {
    hide IsBytes, Lines, Rows, WellTerminated, SanitizeRows, Join, PlainRows;
    if file.Some? && SanitizeRows(allowed, Lines(file.value)).Some? {
      var data, lines := file.value, SanitizeRows(allowed, Lines(file.value)).value;
      LineBytes(data);
      LinesHaveNoNewline(data);
      PlainOfLines(data, x);
      SanitizedArePlain(allowed, Lines(data), x);
      SanitizedRows(allowed, Lines(data));
      LinesOfJoin(lines);
      PlainOfLines(Join(lines, '\n'), x);
    }
  }

  // ---------- Offered as content ----------

  lemma {:induction false} CollectedRow(rows: seq<string>, seen: set<string>, ref: SyncRef) returns (k: nat)
    requires ref in Collect(rows, seen)
    ensures k < |rows| && RowRef(rows[k]) == Some(ref)
  {
    hide RowRef;
    var init, last := rows[..|rows| - 1], rows[|rows| - 1];
    if ref in Collect(init, seen) {
      k := CollectedRow(init, seen, ref);
    } else {
      k := |rows| - 1;
    }
  }

  lemma {:induction false} ContentIsKept(refs: seq<SyncRef>, ref: SyncRef)
    requires ref in refs && !IsManifest(ref)
    ensures ref in Contents(refs)
  {
    hide IsManifest;
    var init, last := refs[..|refs| - 1], refs[|refs| - 1];
    assert refs == init + [last];
    if ref in init {
      ContentIsKept(init, ref);
    }
  }

  /** A ref queued as content in the history file and not in the realtime file is among the content refs on offer. */
  lemma OfferedAsContent(q: Queues, x: string)
    requires x in KeysIn(q.history) && x !in KeysIn(q.realtime) && PlainIn(q.history, x)
    ensures x in KeysOf(Contents(HistoryRefs(q)))
  {
    hide Rows, Keys, Ahead, RowRef, Collect, Contents, IsManifest;
    var seen, rows := Elements(KeysOf(RealtimeRefs(q))), Rows(Content(q.history));
    CollectPositions(Rows(Content(q.realtime)), {});
    CollectPositions(rows, seen);
    var refs := HistoryRefs(q);
    assert x in KeysOf(refs);
    var i :| 0 <= i < |refs| && KeysOf(refs)[i] == x;
    var k := CollectedRow(rows, seen, refs[i]);
    assert !ManifestRow(rows[k], x);
    ContentIsKept(refs, refs[i]);
    var j :| 0 <= j < |Contents(refs)| && Contents(refs)[j] == refs[i];
    assert KeysOf(Contents(refs))[j] == x;
  }
}
