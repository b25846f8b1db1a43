/** The queue files as mutable state, changed in place by loops over their lines, and runs of queue operations
    (internal/aip2p/sync.go:481-541, 1069-1202, 1646-1723). */
module SyncQueueFiles {
  import opened Options
  import opened SyncQueues
  import opened SyncRefs
  import opened Text
  import opened UrlText

  // ---------- Files that may be missing ----------

  function Content(file: Option<string>): string {
    match file case None => "" case Some(data) => data
  }

  function Enqueued(file: Option<string>, ref: SyncRef): Option<string> {
    var r := EnqueueText(Content(file), ref);
    if r.added then Some(r.data) else file
  }

  /** A missing file stays missing. */
  function Removed(file: Option<string>, ref: SyncRef): Option<string> {
    match file case None => None case Some(data) => Some(RemoveText(data, ref))
  }

  function Rotated(file: Option<string>, ref: SyncRef): Option<string> {
    Enqueued(Removed(file, ref), ref)
  }

  function Cleaned(file: Option<string>, allowed: string -> bool): Option<string> {
    match file case None => None case Some(data) => Some(SanitizeText(allowed, data))
  }

  /** The history file after the rows of the realtime file that move have been enqueued there. */
  function Receiving(history: Option<string>, rows: seq<string>): Option<string> {
    if rows == [] then history
    else
      var before := Receiving(history, rows[..|rows| - 1]);
      if Moves(rows[|rows| - 1]) then Enqueued(before, RowRef(rows[|rows| - 1]).value) else before
  }

  lemma {:induction false} ReceivingContent(history: Option<string>, rows: seq<string>)
    ensures Content(Receiving(history, rows)) == MovedInto(Content(history), rows)
  {
    hide Moves, RowRef, AnyHolds;
    if rows != [] {
      ReceivingContent(history, rows[..|rows| - 1]);
    }
  }

  class SyncQueue {
    var file: Option<string>

    constructor (initial: Option<string>)
      ensures file == initial
    {
      file := initial;
    }

    /** enqueueSyncRef. */
    method Enqueue(ref: SyncRef) returns (added: bool)
      modifies this
      ensures file == Enqueued(old(file), ref)
      ensures added <==> !AnyHolds(Lines(Content(old(file))), ref)
    {
      hide RowRef, Same, Lines;
      var data := Content(file);
      var lines := Lines(data);
      for k := 0 to |lines|
        invariant forall j :: 0 <= j < k ==> !Holds(lines[j], ref)
        invariant file == old(file)
      {
        var queued := RowRef(lines[k]);
        if queued.Some? && Same(queued.value, ref) {
          assert Holds(lines[k], ref);
          return false;
        }
      }
      file := Some(data + ref.magnet + "\n");
      return true;
    }

    /** removeSyncRef. */
    method Remove(ref: SyncRef)
      modifies this
      ensures file == Removed(old(file), ref)
    {
      hide RowRef, Same, Lines, StripNewlines, Join;
      if file.None? {
        return;
      }
      var lines := Lines(file.value);
      var out: seq<string> := [];
      for k := 0 to |lines|
        invariant out == Without(lines[..k], ref)
        invariant file == old(file)
      {
        assert lines[..k + 1][..k] == lines[..k];
        var queued := RowRef(lines[k]);
        if queued.Some? && Same(queued.value, ref) {
          continue;
        }
        out := out + [lines[k]];
      }
      assert lines[..|lines|] == lines;
      file := Some(StripNewlines(Join(out, '\n')) + "\n");
    }

    /** rotateSyncRef. */
    method Rotate(ref: SyncRef)
      modifies this
      ensures file == Rotated(old(file), ref)
    {
      Remove(ref);
      var added := Enqueue(ref);
    }

    /** sanitizeSyncQueueFile; ok is false when a line does not parse. */
    method Sanitize(allowed: string -> bool) returns (ok: bool)
      modifies this
      ensures file == Cleaned(old(file), allowed)
      ensures ok <==> old(file).None? || SanitizeRows(allowed, Lines(old(file).value)).Some?
    {
      hide SanitizeRow, Lines, Join;
      if file.None? {
        return true;
      }
      var source := Lines(file.value);
      var lines: seq<string> := [];
      for k := 0 to |source|
        invariant SanitizeRows(allowed, source[..k]) == Some(lines)
        invariant file == old(file)
      {
        assert source[..k + 1][..k] == source[..k];
        var line := SanitizeRow(allowed, source[k]);
        if line.None? {
          SanitizeStops(allowed, source, k + 1);
          return false;
        }
        lines := lines + [line.value];
      }
      assert source[..|source|] == source;
      if lines == source {
        UnchangedText(file.value);
        return true;
      }
      file := Some(Join(lines, '\n'));
      return true;
    }
  }

  lemma UnchangedText(data: string)
    ensures Join(Lines(data), '\n') == data
  {
    JoinSplit(data, '\n');
  }

  lemma {:induction false} SanitizeStops(allowed: string -> bool, rows: seq<string>, k: nat)
    requires k <= |rows| && SanitizeRows(allowed, rows[..k]).None?
    ensures SanitizeRows(allowed, rows).None?
    decreases |rows| - k
  {
    hide SanitizeRow;
    if k == |rows| {
      assert rows[..k] == rows;
    } else {
      assert rows[..k + 1][..k] == rows[..k];
      SanitizeStops(allowed, rows, k + 1);
    }
  }

  /** promoteSyncRefToRealtime. */
  method PromoteToRealtime(realtime: SyncQueue, history: SyncQueue, ref: SyncRef) returns (added: bool)
    requires realtime != history
    modifies realtime, history
    ensures history.file == Removed(old(history.file), ref)
    ensures realtime.file == Enqueued(old(realtime.file), ref)
  {
    history.Remove(ref);
    added := realtime.Enqueue(ref);
  }

  /** migrateHistoryManifestQueueRefs. */
  method MigrateManifests(realtime: SyncQueue, history: SyncQueue) returns (moved: nat)
    requires realtime != history
    modifies realtime, history
    ensures realtime.file == match old(realtime.file) { case None => None case Some(data) => Some(MigrateText(data)) }
    ensures history.file == match old(realtime.file)
                            { case None => old(history.file) case Some(data) => Receiving(old(history.file), Lines(data)) }
  {
    hide RowRef, Moves, Lines, Join, Enqueued;
    moved := 0;
    if realtime.file.None? {
      return;
    }
    var data := realtime.file.value;
    var lines := Lines(data);
    var kept: seq<string> := [];
    for k := 0 to |lines|
      invariant kept == Staying(lines[..k])
      invariant moved == 0 ==> kept == lines[..k]
      invariant realtime.file == old(realtime.file)
      invariant history.file == Receiving(old(history.file), lines[..k])
    {
      assert lines[..k + 1][..k] == lines[..k];
      if !Moves(lines[k]) {
        kept := kept + [lines[k]];
        continue;
      }
      MovesKeyFacts(lines[k], "");
      var added := history.Enqueue(RowRef(lines[k]).value);
      moved := moved + 1;
    }
    assert lines[..|lines|] == lines;
    if moved == 0 {
      UnchangedText(data);
      return;
    }
    realtime.file := Some(Join(kept, '\n'));
  }
}
