/** The two queue files of sync refs, as the bytes the program reads and writes: enqueue, remove, rotate, promote,
    sanitize and migrate (internal/aip2p/sync.go:1069-1202, 1646-1723).

    The byte-level operations are shown to refine operations on the rows of a file and on the infohashes they hold. */
module SyncQueues {
  import opened Options
  import opened SyncRefs
  import opened Text
  import opened UrlText

  // ---------- Rows ----------

  function Lines(data: string): (lines: seq<string>)
    ensures |lines| >= 1
  {
    Split(data, '\n')
  }

  /** A text whose every row ends in a newline. */
  predicate WellTerminated(data: string) {
    data == "" || data[|data| - 1] == '\n'
  }

  /** The rows of a text: its lines, without the empty one after a final newline. */
  function Rows(data: string): seq<string> {
    var lines := Lines(data);
    if lines[|lines| - 1] == "" then lines[..|lines| - 1] else lines
  }

  /** The ref a row holds; None for blank rows, comments and rows that do not parse. */
  function RowRef(row: string): Option<SyncRef> {
    var line := Trim(row);
    if line == "" || IsComment(line) then None else ParseSyncRef(line)
  }

  /** The duplicate test of enqueue and remove. */
  predicate Same(queued: SyncRef, ref: SyncRef) {
    (queued.infoHash != "" && queued.infoHash == ref.infoHash) || (queued.magnet != "" && queued.magnet == ref.magnet)
  }

  predicate Holds(row: string, ref: SyncRef) {
    RowRef(row).Some? && Same(RowRef(row).value, ref)
  }

  predicate AnyHolds(rows: seq<string>, ref: SyncRef) {
    exists k :: 0 <= k < |rows| && Holds(rows[k], ref)
  }

  function Without(rows: seq<string>, ref: SyncRef): seq<string> {
    if rows == [] then []
    else
      var init := Without(rows[..|rows| - 1], ref);
      if Holds(rows[|rows| - 1], ref) then init else init + [rows[|rows| - 1]]
  }

  // ---------- The operations on texts ----------

  datatype Added = Added(data: string, added: bool)

  /** enqueueSyncRef. */
  function EnqueueText(data: string, ref: SyncRef): Added {
    if AnyHolds(Lines(data), ref) then Added(data, false) else Added(data + ref.magnet + "\n", true)
  }

  function StripNewlines(s: string): string {
    DropTrailing(s, '\n')
  }

  /** removeSyncRef. */
  function RemoveText(data: string, ref: SyncRef): string {
    StripNewlines(Join(Without(Lines(data), ref), '\n')) + "\n"
  }

  /** One line of sanitizeSyncQueueFile; None if the line does not parse. */
  function SanitizeRow(allowed: string -> bool, row: string): Option<string> {
    var line := Trim(row);
    if line == "" || IsComment(line) then Some(row)
    else
      match SanitizeRef(allowed, line)
      case None => None
      case Some(s) => Some(if s.changed then s.text else row)
  }

  function SanitizeRows(allowed: string -> bool, rows: seq<string>): (out: Option<seq<string>>)
    ensures out.Some? ==> |out.value| == |rows|
  {
    if rows == [] then Some([])
    else
      match (SanitizeRows(allowed, rows[..|rows| - 1]), SanitizeRow(allowed, rows[|rows| - 1]))
      case (Some(init), Some(last)) => Some(init + [last])
      case _ => None
  }

  /** sanitizeSyncQueueFile: nothing is written when a line does not parse. */
  function SanitizeText(allowed: string -> bool, data: string): string {
    match SanitizeRows(allowed, Lines(data))
    case None => data
    case Some(lines) => Join(lines, '\n')
  }

  /** The test for "history-manifest" on the lower-cased line. */
  predicate Moves(row: string) {
    RowRef(row).Some? && Contains(AsciiFold(Trim(row)), "history-manifest")
  }

  function Staying(rows: seq<string>): seq<string> {
    if rows == [] then []
    else
      var init := Staying(rows[..|rows| - 1]);
      if Moves(rows[|rows| - 1]) then init else init + [rows[|rows| - 1]]
  }

  /** The history text once the moving rows have been enqueued there in order. */
  function MovedInto(history: string, rows: seq<string>): string {
    if rows == [] then history
    else
      var before := MovedInto(history, rows[..|rows| - 1]);
      if Moves(rows[|rows| - 1]) then EnqueueText(before, RowRef(rows[|rows| - 1]).value).data else before
  }

  /** What migrateHistoryManifestQueueRefs leaves in the realtime file. */
  function MigrateText(realtime: string): string {
    Join(Staying(Lines(realtime)), '\n')
  }

  // ---------- Texts and rows ----------

  lemma LastLine(data: string)
    ensures Lines(data)[|Lines(data)| - 1] == "" <==> WellTerminated(data)
  {
    SplitNotEmptyAtEnd(data, '\n');
  }

  /** A well-terminated text is its rows, each with a newline. */
  lemma RowsOf(data: string)
    ensures WellTerminated(data) ==> Lines(data) == Rows(data) + [""]
    ensures !WellTerminated(data) ==> Lines(data) == Rows(data)
    ensures forall k :: 0 <= k < |Rows(data)| ==> '\n' !in Rows(data)[k]
  {
    LastLine(data);
    SplitParts(data, '\n');
    hide WellTerminated, Split;
  }

  /** Joining rows, each with a newline, is a well-terminated text with those rows. */
  lemma RowsOfJoin(rows: seq<string>)
    requires forall k :: 0 <= k < |rows| ==> '\n' !in rows[k]
    ensures var data := Join(rows + [""], '\n');
            Lines(data) == rows + [""] && Rows(data) == rows && WellTerminated(data)
  {
    SplitJoin(rows + [""], '\n');
    LastLine(Join(rows + [""], '\n'));
    hide WellTerminated, Split, Join;
  }

  /** An append adds exactly one row exactly when the text is well-terminated; otherwise it runs into the last row. */
  lemma AppendAddsOneRow(data: string, magnet: string)
    requires magnet != "" && '\n' !in magnet
    ensures Rows(data + magnet + "\n") == Rows(data) + [magnet] <==> WellTerminated(data)
    ensures WellTerminated(data + magnet + "\n")
    ensures |Rows(data + magnet + "\n")| == |Rows(data)| + (if WellTerminated(data) then 1 else 0)
  {
    var lines := Lines(data);
    var init, last := lines[..|lines| - 1], lines[|lines| - 1];
    assert lines == init + [last];
    RowsOf(data);
    LastLine(data);
    SplitParts(data, '\n');
    var all := data + magnet + "\n";
    SplitAppendText(data, magnet);
    assert Lines(all) == init + [last + magnet] + [""];
    LastLine(all);
    assert Rows(all) == init + [last + magnet];
    hide Split;
    if last != "" {
      assert |Rows(all)| == |Rows(data)|;
    } else {
      assert last + magnet == magnet;
    }
  }

  lemma SplitAppendText(data: string, magnet: string)
    requires '\n' !in magnet
    ensures var lines := Split(data, '\n');
            Split(data + magnet + "\n", '\n') == lines[..|lines| - 1] + [lines[|lines| - 1] + magnet] + [""]
  {
    SplitAt(data + magnet, '\n', "");
    assert data + magnet + ['\n'] + "" == data + magnet + "\n";
    SplitTail(data, magnet, '\n');
  }

  lemma SplitTail(data: string, tail: string, c: char)
    requires c !in tail
    ensures var lines := Split(data, c);
            Split(data + tail, c) == lines[..|lines| - 1] + [lines[|lines| - 1] + tail]
  {
    hide Split;
    var lines := Split(data, c);
    var init, last := lines[..|lines| - 1], lines[|lines| - 1];
    assert lines == init + [last];
    SplitParts(data, c);
    JoinSplit(data, c);
    if init != [] {
      JoinSnoc(init, last, c);
      JoinSnoc(init, last + tail, c);
    }
    assert Join(init + [last + tail], c) == data + tail;
    SplitJoin(init + [last + tail], c);
  }

  // ---------- Remove, on rows ----------

  function DropEmptyTail(rows: seq<string>): seq<string> {
    if rows != [] && rows[|rows| - 1] == "" then DropEmptyTail(rows[..|rows| - 1]) else rows
  }

  lemma {:induction false} JoinEnds(rows: seq<string>)
    requires rows != [] && rows[|rows| - 1] != "" && '\n' !in rows[|rows| - 1]
    ensures var j := Join(rows, '\n'); j != "" && j[|j| - 1] != '\n'
  {
    var init, last := rows[..|rows| - 1], rows[|rows| - 1];
    assert rows == init + [last];
    if init != [] {
      JoinSnoc(init, last, '\n');
    }
  }

  lemma {:induction false} StripJoin(rows: seq<string>)
    requires forall k :: 0 <= k < |rows| ==> '\n' !in rows[k]
    ensures StripNewlines(Join(rows, '\n')) == Join(DropEmptyTail(rows), '\n')
    decreases |rows|
  {
    if rows == [] {
    } else if rows[|rows| - 1] != "" {
      JoinEnds(rows);
    } else {
      var init := rows[..|rows| - 1];
      assert rows == init + [""];
      if init == [] {
        assert Join(rows, '\n') == "";
      } else {
        JoinSnoc(init, "", '\n');
        var j := Join(rows, '\n');
        assert j == Join(init, '\n') + ['\n'];
        assert j[..|j| - 1] == Join(init, '\n');
        StripJoin(init);
      }
    }
  }

  lemma {:induction false} DropEmptyTailIsPrefix(rows: seq<string>)
    ensures DropEmptyTail(rows) <= rows
    decreases |rows|
  {
    if rows != [] && rows[|rows| - 1] == "" {
      DropEmptyTailIsPrefix(rows[..|rows| - 1]);
    }
  }

  lemma {:induction false} WithoutPart(rows: seq<string>, ref: SyncRef)
    ensures forall row :: row in Without(rows, ref) <==> row in rows && !Holds(row, ref)
  {
    hide Holds;
    if rows != [] {
      WithoutPart(rows[..|rows| - 1], ref);
      assert rows == rows[..|rows| - 1] + [rows[|rows| - 1]];
    }
  }

  /** What is left of the rows: those that do not hold the ref, less empty rows at the end; one empty row if none is left. */
  function RemainingRows(rows: seq<string>, ref: SyncRef): seq<string> {
    var left := DropEmptyTail(Without(rows, ref));
    if left == [] then [""] else left
  }

  lemma WithoutHasNoNewline(data: string, ref: SyncRef)
    ensures forall row :: row in Without(Lines(data), ref) ==> '\n' !in row
  {
    SplitParts(data, '\n');
    WithoutPart(Lines(data), ref);
    hide Split, Without, Holds;
  }

  /** Removing a ref at the byte level is removing its rows, and the written text is always well-terminated. */
  lemma RemoveIsRowwise(data: string, ref: SyncRef)
    ensures Rows(RemoveText(data, ref)) == RemainingRows(Lines(data), ref)
    ensures WellTerminated(RemoveText(data, ref))
  {
    hide Split, Without, DropEmptyTail, Holds, DropTrailing, Rows, WellTerminated, Join, StripNewlines;
    var kept := Without(Lines(data), ref);
    var left := DropEmptyTail(kept);
    WithoutHasNoNewline(data, ref);
    StripJoin(kept);
    DropEmptyTailIsPrefix(kept);
    if left == [] {
      RowsOfJoin([""]);
      JoinNothing();
      assert Join(left, '\n') == "";
      assert RemoveText(data, ref) == "" + "\n" == "\n";
    } else {
      JoinSnoc(left, "", '\n');
      RowsOfJoin(left);
      assert RemoveText(data, ref) == Join(left + [""], '\n');
    }
  }

  lemma JoinNothing()
    ensures Join([""] + [""], '\n') == "\n" && Join([], '\n') == ""
  {
    assert [""] + [""] == ["", ""];
    assert ["", ""][1..] == [""];
  }

  // ---------- The infohashes a file holds ----------

  /** The infohashes of the refs in the rows, in order. */
  function Keys(rows: seq<string>): seq<string> {
    if rows == [] then []
    else
      var init := Keys(rows[..|rows| - 1]);
      if RowRef(rows[|rows| - 1]).Some? then init + [RowRef(rows[|rows| - 1]).value.infoHash] else init
  }

  function DropKey(keys: seq<string>, key: string): seq<string> {
    if keys == [] then []
    else
      var init := DropKey(keys[..|keys| - 1], key);
      if keys[|keys| - 1] == key then init else init + [keys[|keys| - 1]]
  }

  lemma {:induction false} KeyIn(rows: seq<string>, key: string)
    ensures key in Keys(rows) <==> exists k :: 0 <= k < |rows| && RowRef(rows[k]).Some? && RowRef(rows[k]).value.infoHash == key
  {
    hide RowRef;
    if rows != [] {
      var init, last := rows[..|rows| - 1], rows[|rows| - 1];
      KeyIn(init, key);
      if key in Keys(init) {
        var k :| 0 <= k < |init| && RowRef(init[k]).Some? && RowRef(init[k]).value.infoHash == key;
        assert rows[k] == init[k];
      } else if RowRef(last).Some? && RowRef(last).value.infoHash == key {
        assert rows[|rows| - 1] == last;
      } else {
        forall k | 0 <= k < |rows| && RowRef(rows[k]).Some? ensures RowRef(rows[k]).value.infoHash != key {
          if k < |init| { assert init[k] == rows[k]; }
        }
      }
    }
  }

  lemma KeysSnoc(rows: seq<string>, row: string)
    ensures Keys(rows + [row]) == Keys(rows) + (if RowRef(row).Some? then [RowRef(row).value.infoHash] else [])
  {
    assert (rows + [row])[..|rows|] == rows;
    hide RowRef;
  }

  lemma BlankHasNoRef()
    ensures RowRef("").None? && !Holds("", SyncRef("", "", "", ""))
  {
    BlankTrims();
  }

  /** A ref as the queue files store it: its text is one trimmed line, no comment, and parses to the ref's infohash. */
  ghost predicate Queueable(ref: SyncRef) {
    && IsBytes(ref.magnet) && Trim(ref.magnet) == ref.magnet != "" && '\n' !in ref.magnet && !IsComment(ref.magnet)
    && ParseSyncRef(ref.magnet).Some? && ParseSyncRef(ref.magnet).value.infoHash == ref.infoHash
  }

  /** Every parsed ref can be queued. */
  lemma ParsedIsQueueable(text: string)
    requires IsBytes(text) && ParseSyncRef(text).Some?
    ensures Queueable(ParseSyncRef(text).value)
  {
    hide Trim, IsComment, Canonical, ParseParts, CommaRefs, IsBytes;
    CanonicalForm(text);
    CanonicalIsOneLine(text);
    TextOfRefIsBytes(text);
  }

  lemma TextOfRefIsBytes(text: string)
    requires IsBytes(text) && ParseSyncRef(text).Some?
    ensures IsBytes(ParseSyncRef(text).value.magnet) && ParseSyncRef(text).value.infoHash != ""
  {
    TrimBytes(text);
    ParsedIsNormal(Trim(text));
    RefBytes(ParseParts(Trim(text)).value);
    hide Trim, Canonical, ParseParts, IsBytes;
  }

  lemma RowBytes(row: string)
    requires IsBytes(row)
    ensures IsBytes(Trim(row))
    ensures RowRef(row).Some? ==> RowRef(row).value.infoHash != "" && Queueable(RowRef(row).value)
  {
    hide IsComment, ParseSyncRef, IsBytes, Queueable;
    TrimBytes(row);
    if RowRef(row).Some? {
      TextOfRefIsBytes(Trim(row));
      ParsedIsQueueable(Trim(row));
    }
  }

  /** On byte rows the duplicate test is equality of infohashes: equal texts have equal infohashes. */
  lemma SameIsKey(row: string, ref: SyncRef)
    requires IsBytes(row) && Queueable(ref)
    ensures Holds(row, ref) <==> RowRef(row).Some? && RowRef(row).value.infoHash == ref.infoHash
  {
    hide IsBytes, RowRef, ParseSyncRef, IsComment, Trim;
    RowBytes(row);
  }

  lemma QueueableRow(ref: SyncRef)
    requires Queueable(ref)
    ensures RowRef(ref.magnet).Some? && RowRef(ref.magnet).value.infoHash == ref.infoHash
  {
    hide IsBytes, ParseSyncRef, IsComment, Trim;
  }

  predicate ByteRows(rows: seq<string>) {
    forall k :: 0 <= k < |rows| ==> IsBytes(rows[k])
  }

  lemma LineBytes(data: string)
    requires IsBytes(data)
    ensures ByteRows(Lines(data)) && ByteRows(Rows(data))
  {
    SplitBytes(data, '\n');
    hide IsBytes, Split;
  }

  /** The keys of a text do not depend on how it is cut into rows. */
  lemma KeysOfLines(data: string)
    ensures Keys(Lines(data)) == Keys(Rows(data))
  {
    RowsOf(data);
    BlankHasNoRef();
    KeysSnoc(Rows(data), "");
    hide RowRef, Rows, Lines, WellTerminated, Holds;
  }

  // ---------- What the operations do to the keys ----------

  lemma {:induction false} KeysWithout(rows: seq<string>, ref: SyncRef)
    requires ByteRows(rows) && Queueable(ref)
    ensures Keys(Without(rows, ref)) == DropKey(Keys(rows), ref.infoHash)
  {
    hide IsBytes, RowRef, Holds, Queueable;
    if rows != [] {
      var init, last := rows[..|rows| - 1], rows[|rows| - 1];
      KeysWithout(init, ref);
      SameIsKey(last, ref);
      KeysSnoc(Without(init, ref), last);
      if RowRef(last).Some? {
        assert (Keys(init) + [RowRef(last).value.infoHash])[..|Keys(init)|] == Keys(init);
      }
    }
  }

  lemma {:induction false} KeysDropEmptyTail(rows: seq<string>)
    ensures Keys(DropEmptyTail(rows)) == Keys(rows)
    decreases |rows|
  {
    hide RowRef, Holds;
    if rows != [] && rows[|rows| - 1] == "" {
      BlankHasNoRef();
      KeysDropEmptyTail(rows[..|rows| - 1]);
    }
  }

  /** Removing a ref takes out exactly its infohash. */
  lemma RemoveKeys(data: string, ref: SyncRef)
    requires IsBytes(data) && Queueable(ref)
    ensures Keys(Rows(RemoveText(data, ref))) == DropKey(Keys(Rows(data)), ref.infoHash)
  {
    hide IsBytes, RowRef, Holds, Queueable, Rows, Lines, RemoveText, Without, DropEmptyTail, WellTerminated, ByteRows;
    RemoveIsRowwise(data, ref);
    LineBytes(data);
    KeysOfLines(data);
    KeysWithout(Lines(data), ref);
    KeysDropEmptyTail(Without(Lines(data), ref));
    BlankHasNoRef();
    KeysSnoc([], "");
    assert [] + [""] == [""];
  }

  lemma FoundIsKey(rows: seq<string>, ref: SyncRef)
    requires ByteRows(rows) && Queueable(ref)
    ensures AnyHolds(rows, ref) <==> ref.infoHash in Keys(rows)
  {
    hide IsBytes, RowRef, Holds, Queueable;
    KeyIn(rows, ref.infoHash);
    forall k | 0 <= k < |rows|
      ensures Holds(rows[k], ref) <==> RowRef(rows[k]).Some? && RowRef(rows[k]).value.infoHash == ref.infoHash
    {
      SameIsKey(rows[k], ref);
    }
  }

  /** Enqueueing into a well-terminated text appends the infohash unless it is there already. */
  lemma EnqueueKeys(data: string, ref: SyncRef)
    requires IsBytes(data) && WellTerminated(data) && Queueable(ref)
    ensures EnqueueText(data, ref).added <==> ref.infoHash !in Keys(Rows(data))
    ensures Keys(Rows(EnqueueText(data, ref).data))
         == Keys(Rows(data)) + (if ref.infoHash in Keys(Rows(data)) then [] else [ref.infoHash])
    ensures WellTerminated(EnqueueText(data, ref).data) && IsBytes(EnqueueText(data, ref).data)
  {
    LineBytes(data);
    KeysOfLines(data);
    FoundIsKey(Lines(data), ref);
    AppendAddsOneRow(data, ref.magnet);
    KeysSnoc(Rows(data), ref.magnet);
    QueueableRow(ref);
    BytesAppend(data, ref.magnet);
    hide RowRef, Rows, Lines, WellTerminated, ByteRows, AnyHolds, IsComment, ParseSyncRef, Trim, IsBytes;
  }

  lemma BytesAppend(data: string, magnet: string)
    requires IsBytes(data) && IsBytes(magnet)
    ensures IsBytes(data + magnet + "\n")
  {}

  // ---------- Rows without a ref ----------

  /** Comments, rows that do not parse, and rows of white space: everything but refs and empty rows. */
  function Inert(rows: seq<string>): seq<string> {
    if rows == [] then []
    else
      var init := Inert(rows[..|rows| - 1]);
      if RowRef(rows[|rows| - 1]).None? && rows[|rows| - 1] != "" then init + [rows[|rows| - 1]] else init
  }

  lemma InertSnoc(rows: seq<string>, row: string)
    ensures Inert(rows + [row]) == Inert(rows) + (if RowRef(row).None? && row != "" then [row] else [])
  {
    assert (rows + [row])[..|rows|] == rows;
    hide RowRef;
  }

  lemma {:induction false} InertWithout(rows: seq<string>, ref: SyncRef)
    ensures Inert(Without(rows, ref)) == Inert(rows)
  {
    hide RowRef, Same;
    if rows != [] {
      InertWithout(rows[..|rows| - 1], ref);
      InertSnoc(Without(rows[..|rows| - 1], ref), rows[|rows| - 1]);
    }
  }

  lemma {:induction false} InertDropEmptyTail(rows: seq<string>)
    ensures Inert(DropEmptyTail(rows)) == Inert(rows)
    decreases |rows|
  {
    hide RowRef;
    if rows != [] && rows[|rows| - 1] == "" {
      InertDropEmptyTail(rows[..|rows| - 1]);
    }
  }

  lemma InertOfLines(data: string)
    ensures Inert(Lines(data)) == Inert(Rows(data))
  {
    RowsOf(data);
    InertSnoc(Rows(data), "");
    hide RowRef, Rows, Lines, WellTerminated;
  }

  /** Removing a ref keeps every comment and every row that does not parse, in order. */
  lemma RemoveKeepsInert(data: string, ref: SyncRef)
    ensures Inert(Rows(RemoveText(data, ref))) == Inert(Rows(data))
  {
    hide RowRef, Rows, Lines, RemoveText, Without, DropEmptyTail, WellTerminated, Holds;
    RemoveIsRowwise(data, ref);
    InertOfLines(data);
    InertWithout(Lines(data), ref);
    InertDropEmptyTail(Without(Lines(data), ref));
    InertSnoc([], "");
    assert [] + [""] == [""];
  }

  lemma EnqueueKeepsInert(data: string, ref: SyncRef)
    requires WellTerminated(data) && Queueable(ref)
    ensures Inert(Rows(EnqueueText(data, ref).data)) == Inert(Rows(data))
  {
    hide RowRef, Rows, Lines, WellTerminated, AnyHolds, IsComment, ParseSyncRef, Trim, IsBytes;
    AppendAddsOneRow(data, ref.magnet);
    InertSnoc(Rows(data), ref.magnet);
    QueueableRow(ref);
  }

  // ---------- Sanitize ----------

  lemma SanitizedRow(allowed: string -> bool, row: string)
    requires IsBytes(row) && '\n' !in row && SanitizeRow(allowed, row).Some?
    ensures var out := SanitizeRow(allowed, row).value;
            && IsBytes(out) && '\n' !in out && (out == "" <==> row == "")
            && (RowRef(row).None? ==> out == row)
            && (RowRef(row).Some? ==> RowRef(out).Some? && RowRef(out).value.infoHash == RowRef(row).value.infoHash)
            && SanitizeRow(allowed, out) == Some(out)
  {
    hide IsBytes, Trim, IsComment, SanitizeRef, Canonical, ParseParts;
    var line := Trim(row);
    if line != "" && !IsComment(line) {
      TrimBytes(row);
      BlankTrims();
      SanitizeKeepsRef(allowed, line);
      if SanitizeRef(allowed, line).value.changed {
        RewrittenIsOneLine(allowed, line);
      }
    }
  }

  lemma {:induction false} SanitizedRows(allowed: string -> bool, rows: seq<string>)
    requires ByteRows(rows) && SanitizeRows(allowed, rows).Some?
    requires forall k :: 0 <= k < |rows| ==> '\n' !in rows[k]
    ensures var out := SanitizeRows(allowed, rows).value;
            && (forall k :: 0 <= k < |rows| ==> IsBytes(out[k]) && '\n' !in out[k] && (out[k] == "" <==> rows[k] == ""))
            && Keys(out) == Keys(rows) && Inert(out) == Inert(rows)
            && SanitizeRows(allowed, out) == Some(out)
  {
    hide IsBytes, RowRef, SanitizeRow;
    if rows == [] {
    } else {
      var init, last := rows[..|rows| - 1], rows[|rows| - 1];
      SanitizedRows(allowed, init);
      SanitizedRow(allowed, last);
      var out, head := SanitizeRows(allowed, rows).value, SanitizeRows(allowed, init).value;
      var tail := SanitizeRow(allowed, last).value;
      assert out == head + [tail] && out[..|out| - 1] == head;
      assert rows == init + [last];
      KeysSnoc(init, last);
      KeysSnoc(head, tail);
      InertSnoc(init, last);
      InertSnoc(head, tail);
    }
  }

  /** Sanitizing a queue file keeps its infohashes in order, its comments and its final newline; doing it again changes
      nothing. */
  lemma SanitizeKeepsQueue(allowed: string -> bool, data: string)
    requires IsBytes(data)
    ensures var out := SanitizeText(allowed, data);
            && Keys(Rows(out)) == Keys(Rows(data)) && Inert(Rows(out)) == Inert(Rows(data))
            && (WellTerminated(out) <==> WellTerminated(data)) && IsBytes(out)
            && SanitizeText(allowed, out) == out
  {
    hide IsBytes, Lines, Rows, WellTerminated, RowRef, SanitizeRow, SanitizeRows, Keys, Inert, Join;
    if SanitizeRows(allowed, Lines(data)).Some? {
      var lines := SanitizeRows(allowed, Lines(data)).value;
      LineBytes(data);
      LinesHaveNoNewline(data);
      SanitizedRows(allowed, Lines(data));
      LinesOfJoin(lines);
      var out := Join(lines, '\n');
      LastLine(data);
      LastLine(out);
      KeysOfLines(data);
      KeysOfLines(out);
      InertOfLines(data);
      InertOfLines(out);
      JoinBytes(lines);
    }
  }

  lemma RowParts(row: string)
    requires IsBytes(row) && RowRef(row).Some?
    ensures Trim(row) != "" && !IsComment(Trim(row)) && ParseParts(Trim(row)).Some? && ParseSyncRef(Trim(row)).Some?
    ensures IsBytes(Trim(row)) && Trim(Trim(row)) == Trim(row)
  {
    hide IsBytes, Trim, IsComment, Canonical, ParseParts;
    TrimBytes(row);
  }

  /** What sanitizing leaves of a row that holds a ref: the same infohash, display name and peer hint, and of its peer addresses
      exactly the allowed ones. */
  lemma SanitizedRowIsPurged(allowed: string -> bool, row: string)
    requires IsBytes(row) && RowRef(row).Some?
    ensures SanitizeRow(allowed, row).Some? && ParseParts(Trim(row)).Some?
    ensures ParseParts(Trim(SanitizeRow(allowed, row).value)) == Some(Purged(allowed, ParseParts(Trim(row)).value))
    ensures forall v <- Purged(allowed, ParseParts(Trim(row)).value).query.peers :: allowed(v)
  {
    hide IsBytes, Trim, IsComment, SanitizeRef, ParseSyncRef, ParseParts, RowRef;
    RowParts(row);
    SanitizeKeepsRef(allowed, Trim(row));
    KeptFacts(allowed, ParseParts(Trim(row)).value.query.peers);
  }

  /** Sanitizing a file leaves only allowed peer addresses in its refs. */
  lemma {:induction false} SanitizedRowsArePurged(allowed: string -> bool, rows: seq<string>, k: nat)
    requires ByteRows(rows) && SanitizeRows(allowed, rows).Some? && k < |rows| && RowRef(rows[k]).Some?
    ensures var out := ParseParts(Trim(SanitizeRows(allowed, rows).value[k]));
            && ParseParts(Trim(rows[k])).Some? && out == Some(Purged(allowed, ParseParts(Trim(rows[k])).value))
            && forall v <- out.value.query.peers :: allowed(v)
    decreases |rows|
  {
    hide IsBytes, RowRef, SanitizeRow, ParseParts, Trim, Purged;
    if k < |rows| - 1 {
      SanitizedRowsArePurged(allowed, rows[..|rows| - 1], k);
    } else {
      SanitizedRowIsPurged(allowed, rows[k]);
    }
  }

  lemma LinesHaveNoNewline(data: string)
    ensures forall k :: 0 <= k < |Lines(data)| ==> '\n' !in Lines(data)[k]
  {
    SplitParts(data, '\n');
  }

  lemma LinesOfJoin(lines: seq<string>)
    requires lines != [] && forall k :: 0 <= k < |lines| ==> '\n' !in lines[k]
    ensures Lines(Join(lines, '\n')) == lines
  {
    SplitJoin(lines, '\n');
  }

  lemma {:induction false} JoinBytes(lines: seq<string>)
    requires forall k :: 0 <= k < |lines| ==> IsBytes(lines[k])
    ensures IsBytes(Join(lines, '\n'))
  {
    if |lines| > 1 {
      JoinBytes(lines[1..]);
    }
  }

  // ---------- Migrate ----------

  lemma {:induction false} StayingPart(rows: seq<string>)
    ensures forall row :: row in Staying(rows) <==> row in rows && !Moves(row)
    ensures Inert(Staying(rows)) == Inert(rows)
  {
    hide RowRef, Moves;
    if rows != [] {
      var init, last := rows[..|rows| - 1], rows[|rows| - 1];
      StayingPart(init);
      InertSnoc(Staying(init), last);
      InertSnoc(init, last);
      MovingHasRef(last);
      assert rows == init + [last];
    }
  }

  lemma MovingHasRef(row: string)
    ensures Moves(row) ==> RowRef(row).Some?
  {
    hide RowRef, Contains, AsciiFold;
  }

  /** What migrating leaves is the rows that do not move. */
  lemma MigrateIsRowwise(realtime: string)
    requires WellTerminated(realtime)
    ensures Rows(MigrateText(realtime)) == Staying(Rows(realtime)) && WellTerminated(MigrateText(realtime))
  {
    hide Lines, Rows, WellTerminated, Moves, Join, Inert;
    RowsOf(realtime);
    var rows := Rows(realtime);
    BlankStaysPut();
    assert (rows + [""])[..|rows|] == rows;
    assert Staying(rows + [""]) == Staying(rows) + [""];
    StayingPart(rows);
    forall k | 0 <= k < |Staying(rows)| ensures '\n' !in Staying(rows)[k] {
      assert Staying(rows)[k] in rows;
    }
    RowsOfJoin(Staying(rows));
  }

  lemma BlankStaysPut()
    ensures !Moves("")
  {
    BlankHasNoRef();
    hide RowRef, Holds;
  }

  ghost predicate GoodText(data: string) {
    IsBytes(data) && WellTerminated(data)
  }

  /** Moving rows into the history text adds exactly their infohashes. */
  lemma {:induction false} MovedKeys(history: string, rows: seq<string>, key: string)
    requires GoodText(history) && ByteRows(rows)
    ensures GoodText(MovedInto(history, rows))
    ensures Inert(Rows(MovedInto(history, rows))) == Inert(Rows(history))
    ensures key in Keys(Rows(MovedInto(history, rows))) <==>
              key in Keys(Rows(history)) || (key in Keys(rows) && exists k :: 0 <= k < |rows| && MovesKey(rows[k], key))
  {
    hide IsBytes, Rows, WellTerminated, RowRef, Inert, Moves, Queueable, MovesKey, EnqueueText;
    if rows != [] {
      var init, last := rows[..|rows| - 1], rows[|rows| - 1];
      var before := MovedInto(history, init);
      MovedKeys(history, init, key);
      assert rows == init + [last];
      KeysSnoc(init, last);
      MovesKeyFacts(last, key);
      if Moves(last) {
        RowBytes(last);
        var ref := RowRef(last).value;
        EnqueueKeys(before, ref);
        EnqueueKeepsInert(before, ref);
      }
      if exists k :: 0 <= k < |init| && MovesKey(init[k], key) {
        var k :| 0 <= k < |init| && MovesKey(init[k], key);
        assert rows[k] == init[k];
        MovesKeyFacts(rows[k], key);
        KeyIn(init, key);
      }
      if exists k :: 0 <= k < |rows| && MovesKey(rows[k], key) {
        var k :| 0 <= k < |rows| && MovesKey(rows[k], key);
        if k < |init| {
          assert init[k] == rows[k];
          MovesKeyFacts(init[k], key);
          KeyIn(init, key);
        }
      }
      if MovesKey(last, key) {
        assert rows[|init|] == last;
      }
    }
  }

  predicate MovesKey(row: string, key: string) {
    Moves(row) && RowRef(row).value.infoHash == key
  }

  lemma MovesKeyFacts(row: string, key: string)
    ensures MovesKey(row, key) <==> Moves(row) && RowRef(row).Some? && RowRef(row).value.infoHash == key
    ensures Moves(row) ==> RowRef(row).Some?
  {
    hide RowRef, Contains;
  }

  /** Migrating history manifests loses no infohash and makes none up; both files stay well-terminated and keep their
      comments. */
  lemma MigrateConserves(realtime: string, history: string, key: string)
    requires GoodText(realtime) && GoodText(history)
    ensures var rt, hist := MigrateText(realtime), MovedInto(history, Lines(realtime));
            && GoodText(rt) && GoodText(hist)
            && Inert(Rows(rt)) == Inert(Rows(realtime)) && Inert(Rows(hist)) == Inert(Rows(history))
            && (key in Keys(Rows(rt)) || key in Keys(Rows(hist)) <==>
                  key in Keys(Rows(realtime)) || key in Keys(Rows(history)))
  {
    hide IsBytes, Rows, Lines, WellTerminated, RowRef, Inert, Moves, MovesKey, MovedInto, Keys, Staying, Join;
    LineBytes(realtime);
    MovedKeys(history, Lines(realtime), key);
    MigrateIsRowwise(realtime);
    StayingPart(Rows(realtime));
    StayingPart(Lines(realtime));
    KeysOfLines(realtime);
    MigratedBytes(realtime);
    KeyIn(Staying(Rows(realtime)), key);
    KeyIn(Rows(realtime), key);
    KeyIn(Lines(realtime), key);
    MigrateKey(realtime, key);
  }

  lemma MigratedBytes(realtime: string)
    requires IsBytes(realtime)
    ensures IsBytes(MigrateText(realtime))
  {
    hide IsBytes, Lines, Moves, Inert, Join;
    LineBytes(realtime);
    StayingPart(Lines(realtime));
    var kept := Staying(Lines(realtime));
    forall k | 0 <= k < |kept| ensures IsBytes(kept[k]) {
      assert kept[k] in Lines(realtime);
    }
    JoinBytes(kept);
  }

  /** Each infohash of the realtime rows sits in a row that stays or in a line that moves. */
  lemma MigrateKey(realtime: string, key: string)
    requires WellTerminated(realtime)
    ensures key in Keys(Rows(realtime)) <==>
              key in Keys(Staying(Rows(realtime)))
              || (key in Keys(Lines(realtime)) && exists k :: 0 <= k < |Lines(realtime)| && MovesKey(Lines(realtime)[k], key))
  {
    hide Rows, Lines, WellTerminated, RowRef, Inert, Moves, MovesKey, Keys, Staying;
    var rows, lines := Rows(realtime), Lines(realtime);
    RowsOf(realtime);
    KeysOfLines(realtime);
    StayingPart(rows);
    KeyIn(rows, key);
    KeyIn(Staying(rows), key);
    if key in Keys(rows) {
      var k :| 0 <= k < |rows| && RowRef(rows[k]).Some? && RowRef(rows[k]).value.infoHash == key;
      MovesKeyFacts(rows[k], key);
      if Moves(rows[k]) {
        assert lines[k] == rows[k];
      } else {
        assert rows[k] in Staying(rows);
        var j :| 0 <= j < |Staying(rows)| && Staying(rows)[j] == rows[k];
      }
    }
    if key in Keys(Staying(rows)) {
      var j :| 0 <= j < |Staying(rows)| && RowRef(Staying(rows)[j]).Some? && RowRef(Staying(rows)[j]).value.infoHash == key;
      assert Staying(rows)[j] in rows;
      var k :| 0 <= k < |rows| && rows[k] == Staying(rows)[j];
    }
  }
}
