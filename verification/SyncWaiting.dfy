/** Bounded waiting in the two sync queues (internal/aip2p/sync.go:54, 481-541, 1109-1177, 1473-1548). */
module SyncWaiting {
  import opened Options
  import opened Sorting
  import opened SyncContent
  import opened SyncQueueFiles
  import opened SyncQueueRuns
  import opened SyncQueues
  import opened SyncRefs
  import opened SyncScheduler
  import opened Text
  import opened UrlText

  // ---------- Passes ----------

  function AttemptOf(step: Step): seq<Entry> {
    if step.Attempt? then [Entry(step.queue, step.ref)] else []
  }

  function Attempts(steps: seq<Step>): seq<Entry> {
    if steps == [] then [] else AttemptOf(steps[0]) + Attempts(steps[1..])
  }

  /** What processQueue attempts: nothing at all when some row cannot be read. */
  function PassBatch(q: Queues): seq<Entry> {
    if Collectable(q) then Batch(q) else []
  }

  /** The steps of one pass from q: its attempts are what processQueue attempts, in order and with any outcomes; anything
      else may come in between. */
  ghost predicate IsPass(q: Queues, steps: seq<Step>) {
    Attempts(steps) == PassBatch(q) && forall k :: 0 <= k < |steps| ==> StepOk(steps[k])
  }

  predicate Unmoved(q: Queues, x: string) {
    var rows := Rows(Content(q.realtime));
    forall k :: 0 <= k < |rows| ==> !MovesKey(rows[k], x)
  }

  /** No migration of the run finds x in a row that mentions a history manifest. */
  predicate NotMigrated(q: Queues, steps: seq<Step>, x: string)
    decreases |steps|
  {
    steps != [] ==> (steps[0].Migrate? ==> Unmoved(q, x)) && NotMigrated(Next(q, steps[0]), steps[1..], x)
  }

  predicate NotPromoted(steps: seq<Step>, x: string) {
    forall k :: 0 <= k < |steps| ==> !(steps[k].Promote? && steps[k].ref.infoHash == x)
  }

  function AttemptedKeys(which: Which, entries: seq<Entry>): set<string> {
    set e | e in entries && e.queue == which :: e.ref.infoHash
  }

  /** Some step attempts x as a ref of that queue. */
  predicate Attempted(steps: seq<Step>, which: Which, x: string) {
    x in AttemptedKeys(which, Attempts(steps))
  }

  ghost predicate Ordered(file: Option<string>, file': Option<string>, x: string, gone: set<string>) {
    x in KeysIn(file') && Ahead(KeysIn(file'), x) <= Ahead(KeysIn(file), x) - gone
  }

  // ---------- One step ----------

  lemma EnqueueKeepsPlace(file: Option<string>, ref: SyncRef, x: string)
    requires GoodFile(file) && Queueable(ref) && x in KeysIn(file)
    ensures Ordered(file, Enqueued(file, ref), x, {})
  {
    hide GoodFile, KeysIn, Queueable, Enqueued, Ahead;
    EnqueuedKeys(file, ref);
    AheadSnoc(KeysIn(file), ref.infoHash, x);
    assert KeysIn(file) + [] == KeysIn(file);
  }

  lemma RemoveKeepsPlace(file: Option<string>, ref: SyncRef, x: string)
    requires GoodFile(file) && Queueable(ref) && x in KeysIn(file) && ref.infoHash != x
    ensures Ordered(file, Removed(file, ref), x, {ref.infoHash})
  {
    hide GoodFile, KeysIn, Queueable, Removed, Ahead, DropKey;
    RemovedKeys(file, ref);
    AheadDrop(KeysIn(file), ref.infoHash, x);
    DropKeyIn(KeysIn(file), ref.infoHash, x);
  }

  lemma RotateKeepsPlace(file: Option<string>, ref: SyncRef, x: string)
    requires GoodFile(file) && Queueable(ref) && x in KeysIn(file) && ref.infoHash != x
    ensures Ordered(file, Rotated(file, ref), x, {ref.infoHash})
  {
    hide GoodFile, KeysIn, Queueable, Rotated, Ahead, DropKey;
    RotatedKeys(file, ref);
    AheadDrop(KeysIn(file), ref.infoHash, x);
    DropKeyIn(KeysIn(file), ref.infoHash, x);
    AheadSnoc(DropKey(KeysIn(file), ref.infoHash), ref.infoHash, x);
  }

  lemma MigrateKeepsRealtimePlace(q: Queues, x: string)
    requires Good(q) && x in KeysIn(q.realtime) && NotMigrated(q, [Migrate], x)
    ensures Ordered(q.realtime, Next(q, Migrate).realtime, x, {})
  {
    hide Rows, Keys, Ahead, MovesKey, IsBytes, WellTerminated, MigrateText, Staying;
    if q.realtime.Some? {
      MigrateIsRowwise(q.realtime.value);
      AheadStaying(Rows(q.realtime.value), x);
    }
  }

  lemma {:induction false} ReceiveKeepsPlace(file: Option<string>, rows: seq<string>, x: string)
    requires GoodFile(file) && ByteRows(rows) && x in KeysIn(file)
    ensures GoodFile(Receiving(file, rows)) && Ordered(file, Receiving(file, rows), x, {})
  {
    hide GoodFile, KeysIn, Queueable, Enqueued, Ahead, Moves, RowRef, IsBytes;
    if rows != [] {
      var before := Receiving(file, rows[..|rows| - 1]);
      ReceiveKeepsPlace(file, rows[..|rows| - 1], x);
      var last := rows[|rows| - 1];
      MovesKeyFacts(last, x);
      if Moves(last) {
        RowBytes(last);
        EnqueuedKeys(before, RowRef(last).value);
        EnqueueKeepsPlace(before, RowRef(last).value, x);
      }
    }
  }

  /** One step keeps x in its queue with nothing new ahead of it; an attempt on another ref of that queue takes that ref
      out of the way. */
  lemma StepKeepsPlace(q: Queues, step: Step, which: Which, x: string)
    requires Good(q) && StepOk(step) && which != Direct && x in KeysIn(FileOf(q, which))
    requires NotMigrated(q, [step], x) || which == History
    requires which == History ==> NotPromoted([step], x)
    requires step.Attempt? && step.queue == which ==> step.ref.infoHash != x
    ensures Ordered(FileOf(q, which), FileOf(Next(q, step), which), x, AttemptedKeys(which, Attempts([step])))
  {
    hide GoodFile, KeysIn, Queueable, Enqueued, Removed, Rotated, Cleaned, Ahead, Settles, MigrateText, Receiving, MovesKey,
         Rows, Content;
    assert [step][1..] == [];
    assert Attempts([]) == [];
    var file := FileOf(q, which);
    match step
    case Enqueue(w, ref) =>
      if w == which { EnqueueKeepsPlace(file, ref, x); }
    case Attempt(w, ref, result) =>
      assert AttemptedKeys(which, [Entry(w, ref)]) == if w == which then {ref.infoHash} else {};
      if w == which {
        RemoveKeepsPlace(file, ref, x);
        RotateKeepsPlace(file, ref, x);
      }
    case Promote(ref) =>
      if which == Realtime {
        EnqueueKeepsPlace(file, ref, x);
      } else {
        assert [step][0] == step;
        RemoveKeepsPlace(file, ref, x);
      }
    case Migrate =>
      if which == Realtime {
        MigrateKeepsRealtimePlace(q, x);
      } else if q.realtime.Some? {
        GoodLines(q.realtime);
        ReceiveKeepsPlace(q.history, Lines(q.realtime.value), x);
      }
    case Sanitize(w, allowed) =>
      if w == which { CleanedKeys(file, allowed); }
  }

  lemma GoodLines(file: Option<string>)
    requires GoodFile(file) && file.Some?
    ensures ByteRows(Lines(file.value))
  {
    LineBytes(file.value);
    hide Lines, IsBytes;
  }

  // ---------- All steps of a pass ----------

  lemma AttemptsCons(steps: seq<Step>)
    requires steps != []
    ensures Attempts(steps) == Attempts([steps[0]]) + Attempts(steps[1..])
  {
    hide AttemptOf;
    assert [steps[0]][1..] == [];
  }

  lemma AttemptedUnion(which: Which, a: seq<Entry>, b: seq<Entry>)
    ensures AttemptedKeys(which, a + b) == AttemptedKeys(which, a) + AttemptedKeys(which, b)
  {}

  lemma HeadStep(q: Queues, steps: seq<Step>, x: string)
    requires steps != []
    ensures NotMigrated(q, steps, x) ==> NotMigrated(q, [steps[0]], x)
    ensures NotPromoted(steps, x) ==> NotPromoted([steps[0]], x) && NotPromoted(steps[1..], x)
  {
    assert [steps[0]][1..] == [];
    hide Next, Rows, MovesKey;
  }

  lemma {:induction false} StepsKeepPlace(q: Queues, steps: seq<Step>, which: Which, x: string)
    requires Good(q) && which != Direct && x in KeysIn(FileOf(q, which))
    requires forall k :: 0 <= k < |steps| ==> StepOk(steps[k])
    requires which == Realtime ==> NotMigrated(q, steps, x)
    requires which == History ==> NotPromoted(steps, x)
    requires x !in AttemptedKeys(which, Attempts(steps))
    ensures Ordered(FileOf(q, which), FileOf(Run(q, steps), which), x, AttemptedKeys(which, Attempts(steps)))
    decreases |steps|
  {
    hide Good, KeysIn, Ahead, StepOk, Next, AttemptedKeys, NotPromoted, FileOf;
    if steps == [] {
      NothingAttempted(which);
    } else {
      var first, rest := steps[0], steps[1..];
      AttemptsCons(steps);
      AttemptedUnion(which, Attempts([first]), Attempts(rest));
      HeadStep(q, steps, x);
      AttemptOfStep(first, which, x);
      StepKeepsPlace(q, first, which, x);
      StepConserves(q, first, x);
      StepsKeepPlace(Next(q, first), rest, which, x);
    }
  }

  lemma NothingAttempted(which: Which)
    ensures AttemptedKeys(which, Attempts([])) == {}
  {}

  lemma AttemptOfStep(step: Step, which: Which, x: string)
    requires x !in AttemptedKeys(which, Attempts([step]))
    ensures step.Attempt? && step.queue == which ==> step.ref.infoHash != x
  {
    if step.Attempt? && step.queue == which {
      var e := Entry(step.queue, step.ref);
      assert Attempts([step]) == [e] + Attempts([step][1..]);
      assert e in Attempts([step]);
    }
  }

  // ---------- The realtime queue ----------

  function RealtimeBatch(q: Queues): seq<SyncRef> {
    Take(RealtimeRefs(q), MAX_REFS)
  }

  function HistoryBatch(q: Queues): seq<SyncRef> {
    Take(ByPriority(HistoryRefs(q)), Spare(q))
  }

  lemma BatchKeys(q: Queues)
    ensures AttemptedKeys(Realtime, Batch(q)) == Elements(KeysOf(RealtimeBatch(q)))
    ensures AttemptedKeys(History, Batch(q)) == Elements(KeysOf(HistoryBatch(q)))
  {
    hide RealtimeRefs, HistoryRefs, ByPriority, Spare;
    var r, h := RealtimeBatch(q), HistoryBatch(q);
    assert Batch(q) == Entries(Realtime, r) + Entries(History, h);
    AttemptedUnion(Realtime, Entries(Realtime, r), Entries(History, h));
    AttemptedUnion(History, Entries(Realtime, r), Entries(History, h));
    EntryKeys(Realtime, Realtime, r);
    EntryKeys(Realtime, History, r);
    EntryKeys(History, Realtime, h);
    EntryKeys(History, History, h);
  }

  lemma EntryKeys(which: Which, queue: Which, refs: seq<SyncRef>)
    ensures AttemptedKeys(which, Entries(queue, refs)) == if which == queue then Elements(KeysOf(refs)) else {}
  {
    var keys := KeysOf(refs);
    forall key | key in keys ensures which == queue ==> key in AttemptedKeys(which, Entries(queue, refs)) {
      var k :| 0 <= k < |keys| && keys[k] == key;
      assert Entries(queue, refs)[k] == Entry(queue, refs[k]);
      assert Entry(queue, refs[k]) in Entries(queue, refs);
    }
    forall key | key in AttemptedKeys(which, Entries(queue, refs)) ensures which == queue && key in keys {
      var e :| e in Entries(queue, refs) && e.queue == which && e.ref.infoHash == key;
      var k :| 0 <= k < |refs| && Entries(queue, refs)[k] == e;
      assert keys[k] == key;
    }
  }

  /** The place of x among the realtime refs: the number of different infohashes ahead of it. */
  function Place(file: Option<string>, x: string): nat {
    |Ahead(KeysIn(file), x)|
  }

  lemma RealtimePlace(q: Queues, x: string)
    requires x in KeysIn(q.realtime)
    ensures Place(q.realtime, x) < |RealtimeRefs(q)|
    ensures RealtimeRefs(q)[Place(q.realtime, x)].infoHash == x
    ensures Ahead(KeysIn(q.realtime), x) == Elements(KeysOf(RealtimeRefs(q))[..Place(q.realtime, x)])
  {
    hide Rows, Keys, Ahead;
    var refs := RealtimeRefs(q);
    CollectPositions(Rows(Content(q.realtime)), {});
    assert x in KeysOf(refs);
    var i :| 0 <= i < |refs| && KeysOf(refs)[i] == x;
    RealtimePosition(q, i);
  }

  /** One pass attempts a ref exactly if every row can be read and the ref is among the first three; otherwise it leaves
      the ref queued, three places further up if every row can be read. */
  lemma RealtimePass(q: Queues, steps: seq<Step>, x: string)
    requires Good(q) && IsPass(q, steps) && x in KeysIn(q.realtime) && NotMigrated(q, steps, x)
    ensures Attempted(steps, Realtime, x) <==> Collectable(q) && Place(q.realtime, x) < MAX_REFS
    ensures !Attempted(steps, Realtime, x) ==>
              && x in KeysIn(Run(q, steps).realtime)
              && Place(Run(q, steps).realtime, x) + (if Collectable(q) then MAX_REFS else 0) <= Place(q.realtime, x)
  {
    hide Good, KeysIn, Ahead, StepOk, RealtimeRefs, HistoryRefs, NotMigrated, Run, Attempts, Batch, AttemptedKeys, ByPriority,
         Spare, Collectable;
    var i, refs := Place(q.realtime, x), RealtimeRefs(q);
    RealtimePlace(q, x);
    RealtimeDistinct(q);
    BatchKeys(q);
    NoKeys(Realtime);
    if Collectable(q) && i < MAX_REFS {
      assert KeysOf(RealtimeBatch(q))[i] == x;
    } else if Collectable(q) {
      BatchSize(refs, i, x);
      StepsKeepPlace(q, steps, Realtime, x);
      ThreeFewer(Ahead(KeysIn(Run(q, steps).realtime), x), KeysOf(refs), i);
    } else {
      StepsKeepPlace(q, steps, Realtime, x);
      SubsetSize(Ahead(KeysIn(Run(q, steps).realtime), x), Ahead(KeysIn(q.realtime), x));
    }
  }

  lemma NoKeys(which: Which)
    ensures AttemptedKeys(which, []) == {}
  {}

  lemma RealtimeDistinct(q: Queues)
    ensures Distinct(KeysOf(RealtimeRefs(q)))
  {
    CollectPositions(Rows(Content(q.realtime)), {});
    hide Collect, Rows, Keys, Ahead;
  }

  lemma BatchSize(refs: seq<SyncRef>, i: nat, x: string)
    requires MAX_REFS <= i < |refs| && refs[i].infoHash == x && Distinct(KeysOf(refs))
    ensures KeysOf(Take(refs, MAX_REFS)) == KeysOf(refs)[..MAX_REFS]
    ensures x !in KeysOf(Take(refs, MAX_REFS))
  {
    assert KeysOf(refs)[i] == x;
  }

  /** Fewer by the size of a part that is gone. */
  lemma ThreeFewer(after: set<string>, keys: seq<string>, i: nat)
    requires MAX_REFS <= i <= |keys| && Distinct(keys)
    requires after <= Elements(keys[..i]) - Elements(keys[..MAX_REFS])
    ensures |after| + MAX_REFS <= i
  {
    DistinctSize(keys[..i]);
    DistinctSize(keys[..MAX_REFS]);
    Fewer(after, Elements(keys[..i]), Elements(keys[..MAX_REFS]));
  }

  lemma Fewer(after: set<string>, before: set<string>, gone: set<string>)
    requires after <= before - gone && gone <= before
    ensures |after| + |gone| <= |before|
  {
    SubsetSize(after + gone, before);
    assert |after + gone| == |after| + |gone|;
  }

  // ---------- Runs of passes ----------

  /** Every element is a pass from where the one before ended. */
  ghost predicate Passes(q: Queues, passes: seq<seq<Step>>)
    decreases |passes|
  {
    passes != [] ==> IsPass(q, passes[0]) && Passes(Run(q, passes[0]), passes[1..])
  }

  /** No migration of any pass moves x. */
  predicate Unmigrated(q: Queues, passes: seq<seq<Step>>, x: string)
    decreases |passes|
  {
    passes != [] ==> NotMigrated(q, passes[0], x) && Unmigrated(Run(q, passes[0]), passes[1..], x)
  }

  predicate AttemptedBy(passes: seq<seq<Step>>, k: nat, which: Which, x: string) {
    k < |passes| && Attempted(passes[k], which, x)
  }

  lemma AttemptedLater(passes: seq<seq<Step>>, k: nat, which: Which, x: string)
    requires passes != [] && AttemptedBy(passes[1..], k, which, x)
    ensures AttemptedBy(passes, k + 1, which, x)
  {
    hide Attempted;
  }

  /** Bounded waiting: a realtime ref at place i is attempted by pass i/3 + 1 if and only if every row of the two files can
      be read, whatever the outcomes of the attempts and whatever is enqueued, promoted or sanitized meanwhile. */
  lemma BoundedWaiting(q: Queues, passes: seq<seq<Step>>, x: string)
    requires Good(q) && x in KeysIn(q.realtime) && Passes(q, passes) && Unmigrated(q, passes, x)
    requires |passes| > Place(q.realtime, x) / MAX_REFS
    ensures Collectable(q) <==> exists k :: 0 <= k <= Place(q.realtime, x) / MAX_REFS && AttemptedBy(passes, k, Realtime, x)
    ensures !Collectable(q) ==> forall k :: !AttemptedBy(passes, k, Realtime, x)
  {
    hide Good, KeysIn, Passes, Collectable, Unmigrated, AttemptedBy, Place;
    if Collectable(q) {
      AttemptedInTime(q, passes, x);
    } else {
      forall k: nat { NeverAttempted(q, passes, k, Realtime, x); }
    }
  }

  lemma {:induction false} AttemptedInTime(q: Queues, passes: seq<seq<Step>>, x: string)
    requires Good(q) && Collectable(q) && x in KeysIn(q.realtime) && Passes(q, passes) && Unmigrated(q, passes, x)
    requires |passes| > Place(q.realtime, x) / MAX_REFS
    ensures exists k :: 0 <= k <= Place(q.realtime, x) / MAX_REFS && AttemptedBy(passes, k, Realtime, x)
    decreases |passes|
  {
    hide Good, KeysIn, IsPass, NotMigrated, Place, Run, Collectable, Attempted;
    RealtimePass(q, passes[0], x);
    if Attempted(passes[0], Realtime, x) {
      assert AttemptedBy(passes, 0, Realtime, x);
    } else {
      var q', rest := Run(q, passes[0]), passes[1..];
      PassKeepsGood(q, passes[0]);
      AttemptedInTime(q', rest, x);
      var k :| 0 <= k <= Place(q'.realtime, x) / MAX_REFS && AttemptedBy(rest, k, Realtime, x);
      AttemptedLater(passes, k, Realtime, x);
    }
  }

  /** One row that cannot be read, in either file, stops both queues for good: no pass of any run attempts anything. */
  lemma {:induction false} UnreadableRowStopsAll(q: Queues, passes: seq<seq<Step>>, k: nat)
    requires Good(q) && !Collectable(q) && Passes(q, passes) && k < |passes|
    ensures Attempts(passes[k]) == []
    decreases |passes|
  {
    hide Good, Run, Collectable, Attempts, StepOk, Batch;
    if k > 0 {
      PassKeepsGood(q, passes[0]);
      UnreadableRowStopsAll(Run(q, passes[0]), passes[1..], k - 1);
    }
  }

  lemma NeverAttempted(q: Queues, passes: seq<seq<Step>>, k: nat, which: Which, x: string)
    requires Good(q) && !Collectable(q) && Passes(q, passes)
    ensures !AttemptedBy(passes, k, which, x)
  {
    hide Good, Collectable, Passes, Attempts, AttemptedKeys;
    if k < |passes| {
      UnreadableRowStopsAll(q, passes, k);
      NoKeys(which);
    }
  }

  /** Such a file: one stray word above a queued infohash, which stands first. Sanitizing leaves the file as it is. */
  lemma StrayWordBlocks(hash: string, allowed: string -> bool)
    requires IsInfoHash(hash)
    ensures var q := Queues(Some("x\n" + hash + "\n"), None);
            && Good(q) && KeysIn(q.realtime) == [Lower(hash)] && Place(q.realtime, Lower(hash)) == 0
            && !Collectable(q) && Cleaned(q.realtime, allowed) == q.realtime
  {
    hide RowRef, Readable, IsInfoHash, Lower, Lines, SanitizeRow, IsBytes;
    var data := "x\n" + hash + "\n";
    StrayRows(hash);
    StrayWord(allowed);
    PlainHash(hash);
    KeysSnoc([], "x");
    KeysSnoc(["x"], hash);
    assert [] + ["x"] == ["x"] && ["x"] + [hash] == ["x", hash];
    assert Rows(data)[0] == "x";
    FirstAhead(Lower(hash));
    assert Rows("") == [];
    WordFails(allowed, ["x", hash, ""]);
  }

  lemma FirstAhead(x: string)
    ensures Ahead([x], x) == {}
  {}

  lemma StrayRows(hash: string)
    requires IsInfoHash(hash)
    ensures var data := "x\n" + hash + "\n";
            && IsBytes(data) && WellTerminated(data) && Lines(data) == ["x", hash, ""] && Rows(data) == ["x", hash]
    ensures IsBytes("") && WellTerminated("") && Rows("") == []
  {
    hide Split;
    HashBytes(hash);
    var lines := ["x", hash, ""];
    assert '\n' !in hash;
    JoinThree(hash);
    SplitJoin(lines, '\n');
    assert lines[..2] == ["x", hash];
    SplitPlain("", '\n');
  }

  lemma JoinThree(hash: string)
    ensures Join(["x", hash, ""], '\n') == "x\n" + hash + "\n"
  {
    assert ["x", hash, ""][1..] == [hash, ""];
    assert [hash, ""][1..] == [""];
    assert Join([hash, ""], '\n') == hash + "\n";
  }

  lemma StrayWord(allowed: string -> bool)
    ensures !Readable("x") && RowRef("x").None? && SanitizeRow(allowed, "x").None?
  {
    assert SpaceAt("x") == 0 && SpaceBefore("x") == 0;
    assert Trim("x") == "x";
    assert |Lower("x")| == 1;
    hide Lower, Trim;
  }

  lemma {:induction false} WordFails(allowed: string -> bool, rows: seq<string>)
    requires rows != [] && SanitizeRow(allowed, rows[0]).None?
    ensures SanitizeRows(allowed, rows).None?
    decreases |rows|
  {
    hide SanitizeRow;
    if |rows| > 1 {
      WordFails(allowed, rows[..|rows| - 1]);
    }
  }

  lemma PassKeepsGood(q: Queues, steps: seq<Step>)
    requires Good(q) && IsPass(q, steps)
    ensures Good(Run(q, steps))
    ensures Collectable(q) <==> Collectable(Run(q, steps))
  {
    hide Good, Run, Attempts, PassBatch, StepOk, InertIn, Held, GoneForReason, BringsKey, Collectable;
    RunConserves(q, steps, "");
    ReadableIsInert(q);
    ReadableIsInert(Run(q, steps));
  }

  /** Whether collecting succeeds depends only on the rows without a ref, which every operation keeps. */
  lemma ReadableIsInert(q: Queues)
    ensures Collectable(q) <==> AllReadable(InertIn(q.realtime)) && AllReadable(InertIn(q.history))
  {
    InertReadable(Rows(Content(q.realtime)));
    InertReadable(Rows(Content(q.history)));
    hide Rows, AllReadable, Inert;
  }

  lemma {:induction false} InertReadable(rows: seq<string>)
    ensures AllReadable(rows) <==> AllReadable(Inert(rows))
  {
    hide ParseSyncRef, Trim, IsComment;
    if rows != [] {
      var init, last := rows[..|rows| - 1], rows[|rows| - 1];
      InertReadable(init);
      BlankRowReadable();
      assert rows == init + [last];
      ReadableSnoc(init, last);
      ReadableSnoc(Inert(init), last);
    }
  }

  lemma ReadableSnoc(rows: seq<string>, row: string)
    ensures AllReadable(rows + [row]) <==> AllReadable(rows) && Readable(row)
  {
    hide Readable;
    var all := rows + [row];
    if AllReadable(all) {
      assert all[|rows|] == row;
      forall k | 0 <= k < |rows| ensures Readable(rows[k]) { assert all[k] == rows[k]; }
    }
  }

  lemma BlankRowReadable()
    ensures Readable("")
  {
    BlankTrims();
  }

  // ---------- The history queue ----------

  lemma {:induction false} ContentsPart(refs: seq<SyncRef>)
    ensures forall r :: r in Contents(refs) ==> r in refs
  {
    hide IsManifest;
    if refs != [] {
      ContentsPart(refs[..|refs| - 1]);
      assert refs == refs[..|refs| - 1] + [refs[|refs| - 1]];
    }
  }

  /** Sorting out the content refs keeps their order. */
  lemma {:induction false} ContentsBefore(refs: seq<SyncRef>, j: nat) returns (i: nat)
    requires j < |Contents(refs)|
    ensures i < |refs| && refs[i] == Contents(refs)[j]
    ensures forall k :: 0 <= k < j ==> Contents(refs)[k] in refs[..i]
  {
    hide IsManifest;
    var init, last := refs[..|refs| - 1], refs[|refs| - 1];
    if j < |Contents(init)| {
      i := ContentsBefore(init, j);
      assert refs[..i] == init[..i];
    } else {
      i := |refs| - 1;
      ContentsPart(init);
    }
  }

  lemma ContentsDistinct(refs: seq<SyncRef>)
    requires Distinct(KeysOf(refs))
    ensures Distinct(KeysOf(Contents(refs)))
  {
    hide Contents;
    var c := Contents(refs);
    forall a, b | 0 <= a < b < |c| ensures KeysOf(c)[a] != KeysOf(c)[b] {
      var i := ContentsBefore(refs, b);
      assert c[a] in refs[..i];
      var k :| 0 <= k < i && refs[k] == c[a];
      assert KeysOf(refs)[k] != KeysOf(refs)[i];
    }
  }

  /** The infohashes of the content refs that the history queue offers, in order. */
  function ContentKeys(q: Queues): seq<string> {
    KeysOf(Contents(HistoryRefs(q)))
  }

  /** The content refs offered before x have their infohashes ahead of x in the history file. */
  lemma ContentAhead(q: Queues, j: nat)
    requires j < |ContentKeys(q)|
    ensures var x := ContentKeys(q)[j];
            && x in KeysIn(q.history)
            && Elements(ContentKeys(q)[..j]) <= Ahead(KeysIn(q.history), x)
    ensures Distinct(ContentKeys(q))
  {
    hide Rows, Keys, Ahead, Contents, RealtimeRefs, Collect;
    var refs, seen := HistoryRefs(q), Elements(KeysOf(RealtimeRefs(q)));
    CollectPositions(Rows(Content(q.history)), seen);
    ContentsDistinct(refs);
    var i := ContentsBefore(refs, j);
    assert KeysOf(refs)[i] in KeysOf(refs);
    forall key | key in ContentKeys(q)[..j] ensures key in KeysOf(refs)[..i] {
      var k :| 0 <= k < j && ContentKeys(q)[k] == key;
      assert Contents(refs)[k] in refs[..i];
      var m :| 0 <= m < i && refs[m] == Contents(refs)[k];
      assert KeysOf(refs)[..i][m] == key;
    }
    assert Elements(ContentKeys(q)[..j]) <= Elements(KeysOf(refs)[..i]);
    assert Ahead(Keys(Rows(Content(q.history))), refs[i].infoHash) - seen == Elements(KeysOf(refs)[..i]);
  }

  lemma BatchOfContents(c: seq<SyncRef>, m: seq<SyncRef>, n: nat, j: nat)
    requires j < |c| && Distinct(KeysOf(c))
    ensures j < n ==> KeysOf(c)[j] in KeysOf(Take(c + m, n))
    ensures n <= j ==> KeysOf(Take(c + m, n)) == KeysOf(c)[..n] && KeysOf(c)[j] !in KeysOf(Take(c + m, n))
  {
    var t := Take(c + m, n);
    if j < n {
      assert KeysOf(t)[j] == KeysOf(c)[j];
    } else {
      assert KeysOf(t) == KeysOf(c)[..n];
    }
  }

  /** One pass attempts an offered content ref exactly if every row can be read and the ref is within the spare slots;
      otherwise it leaves the ref queued, that many places further up if every row can be read. */
  lemma HistoryPass(q: Queues, steps: seq<Step>, j: nat)
    requires Good(q) && IsPass(q, steps) && j < |ContentKeys(q)| && NotPromoted(steps, ContentKeys(q)[j])
    ensures var x := ContentKeys(q)[j];
            && j <= Place(q.history, x)
            && (Attempted(steps, History, x) <==> Collectable(q) && j < Spare(q))
            && (!Attempted(steps, History, x) ==>
                  && x in KeysIn(Run(q, steps).history)
                  && Place(Run(q, steps).history, x) + (if Collectable(q) then Spare(q) else 0) <= Place(q.history, x))
  {
    hide Good, KeysIn, Ahead, StepOk, RealtimeRefs, HistoryRefs, Run, Attempts, Batch, AttemptedKeys, Spare, Contents, Manifests,
         NotPromoted, Collectable;
    var x, keys := ContentKeys(q)[j], ContentKeys(q);
    var refs := HistoryRefs(q);
    ContentAhead(q, j);
    BatchKeys(q);
    NoKeys(History);
    BatchOfContents(Contents(refs), Manifests(refs), Spare(q), j);
    DistinctSize(keys[..j]);
    SubsetSize(Elements(keys[..j]), Ahead(KeysIn(q.history), x));
    if !Collectable(q) {
      StepsKeepPlace(q, steps, History, x);
      SubsetSize(Ahead(KeysIn(Run(q, steps).history), x), Ahead(KeysIn(q.history), x));
    } else if Spare(q) <= j {
      StepsKeepPlace(q, steps, History, x);
      DistinctSize(keys[..Spare(q)]);
      assert keys[..Spare(q)] == keys[..j][..Spare(q)];
      PrefixElements(keys[..j], Spare(q));
      Fewer(Ahead(KeysIn(Run(q, steps).history), x), Ahead(KeysIn(q.history), x), Elements(keys[..Spare(q)]));
    }
  }

  lemma PrefixElements(keys: seq<string>, n: nat)
    requires n <= |keys|
    ensures Elements(keys[..n]) <= Elements(keys)
  {}

  /** x is queued in the history file only, and every row that holds it is content. */
  ghost predicate Waiting(q: Queues, x: string) {
    x in KeysIn(q.history) && x !in KeysIn(q.realtime) && PlainIn(q.history, x)
  }

  /** The step neither enqueues x into the realtime queue nor promotes it. */
  predicate Leaves(step: Step, x: string) {
    !(step.Enqueue? && step.queue == Realtime && step.ref.infoHash == x) && !(step.Promote? && step.ref.infoHash == x)
  }

  predicate AllLeave(steps: seq<Step>, x: string) {
    forall k :: 0 <= k < |steps| ==> Leaves(steps[k], x)
  }

  /** No step moves x up, as long as x has not been attempted. */
  predicate Undisturbed(passes: seq<seq<Step>>, x: string) {
    passes != [] ==> AllLeave(passes[0], x) && (Attempted(passes[0], History, x) || Undisturbed(passes[1..], x))
  }

  lemma {:induction false} LeftIsUndisturbed(passes: seq<seq<Step>>, x: string)
    requires forall steps <- passes, step <- steps ::
               !(step.Enqueue? && step.queue == Realtime && step.ref.infoHash == x) && !(step.Promote? && step.ref.infoHash == x)
    ensures Undisturbed(passes, x)
  {
    if passes != [] {
      assert passes[0] in passes;
      forall k | 0 <= k < |passes[0]| ensures Leaves(passes[0][k], x) {
        assert passes[0][k] in passes[0];
      }
      forall steps | steps in passes[1..] ensures steps in passes {}
      LeftIsUndisturbed(passes[1..], x);
    }
    hide Leaves, Attempted;
  }

  lemma StepKeepsWaiting(q: Queues, step: Step, x: string)
    requires Good(q) && StepOk(step) && Waiting(q, x) && Leaves(step, x)
    requires step.Attempt? ==> step.ref.infoHash != x
    ensures Waiting(Next(q, step), x)
  {
    hide GoodFile, KeysIn, Queueable, Enqueued, Removed, Rotated, Cleaned, Ahead, Settles, MigrateText, Receiving, PlainIn,
         DropKey, Content, InertIn;
    match step
    case Enqueue(w, ref) =>
      if w != Direct { EnqueuedKeys(FileOf(q, w), ref); }
      if w == History { EnqueuedIsPlain(q.history, ref, x); }
    case Attempt(w, ref, result) =>
      if w != Direct {
        RemovedKeys(FileOf(q, w), ref);
        RotatedKeys(FileOf(q, w), ref);
        DropKeyIn(KeysIn(FileOf(q, w)), ref.infoHash, x);
      }
      if w == History {
        RemovedIsPlain(q.history, ref, x);
        RotatedIsPlain(q.history, ref, x);
      }
    case Promote(ref) =>
      EnqueuedKeys(q.realtime, ref);
      RemovedKeys(q.history, ref);
      DropKeyIn(KeysIn(q.history), ref.infoHash, x);
      RemovedIsPlain(q.history, ref, x);
    case Migrate =>
      if q.realtime.Some? {
        GoodLines(q.realtime);
        ReceivingIsPlain(q.history, Lines(q.realtime.value), x);
        MigrateBringsNothing(q.realtime, x);
      }
    case Sanitize(w, allowed) =>
      if w != Direct { CleanedKeys(FileOf(q, w), allowed); }
      if w == History { CleanedIsPlain(q.history, allowed, x); }
  }

  lemma MigrateBringsNothing(file: Option<string>, x: string)
    requires file.Some? && GoodFile(file) && x !in KeysIn(file)
    ensures x !in KeysIn(Some(MigrateText(file.value)))
  {
    hide Rows, Keys, Moves, RowRef, IsBytes, WellTerminated, MigrateText, Inert, Staying;
    var rows := Rows(file.value);
    MigrateIsRowwise(file.value);
    StayingPart(rows);
    KeyIn(rows, x);
    KeyIn(Staying(rows), x);
    forall j | 0 <= j < |Staying(rows)| && RowRef(Staying(rows)[j]).Some?
      ensures RowRef(Staying(rows)[j]).value.infoHash != x
    {
      assert Staying(rows)[j] in rows;
      var k :| 0 <= k < |rows| && rows[k] == Staying(rows)[j];
    }
  }

  lemma {:induction false} StepsKeepWaiting(q: Queues, steps: seq<Step>, x: string)
    requires Good(q) && (forall k :: 0 <= k < |steps| ==> StepOk(steps[k])) && AllLeave(steps, x) && Waiting(q, x)
    requires forall e <- Attempts(steps) :: e.ref.infoHash != x
    ensures Waiting(Run(q, steps), x)
    decreases |steps|
  {
    hide Good, StepOk, Next, Waiting, Leaves;
    if steps != [] {
      var first := steps[0];
      assert Attempts(steps) == AttemptOf(first) + Attempts(steps[1..]);
      if first.Attempt? {
        assert Entry(first.queue, first.ref) in Attempts(steps);
      }
      StepKeepsWaiting(q, first, x);
      StepConserves(q, first, x);
      StepsKeepWaiting(Next(q, first), steps[1..], x);
    }
  }

  /** A pass that does not attempt x leaves it waiting. */
  lemma PassKeepsWaiting(q: Queues, steps: seq<Step>, x: string)
    requires Good(q) && IsPass(q, steps) && Waiting(q, x) && AllLeave(steps, x) && !Attempted(steps, History, x)
    ensures Waiting(Run(q, steps), x)
  {
    hide Good, StepOk, Run, Collectable, RealtimeRefs, HistoryRefs, ByPriority, Spare, PlainIn, KeysIn, AllLeave;
    forall e | e in Attempts(steps) ensures e.ref.infoHash != x {
      BatchQueues(q, e);
      if e.queue == Realtime {
        RealtimeBatchKeys(q);
        BatchKeys(q);
        assert e.ref.infoHash in AttemptedKeys(Realtime, Batch(q));
      } else {
        assert e.ref.infoHash in AttemptedKeys(History, Attempts(steps));
      }
    }
    StepsKeepWaiting(q, steps, x);
  }

  lemma BatchQueues(q: Queues, e: Entry)
    requires e in PassBatch(q)
    ensures e in Batch(q) && (e.queue == Realtime || e.queue == History)
  {
    hide RealtimeRefs, HistoryRefs, ByPriority, Spare, Collectable;
  }

  lemma RealtimeBatchKeys(q: Queues)
    ensures forall x :: x in KeysOf(RealtimeBatch(q)) ==> x in KeysIn(q.realtime)
  {
    hide Rows, Keys, Ahead, Collect;
    CollectPositions(Rows(Content(q.realtime)), {});
    var refs := RealtimeRefs(q);
    forall x | x in KeysOf(RealtimeBatch(q)) ensures x in KeysIn(q.realtime) {
      var k :| 0 <= k < |RealtimeBatch(q)| && KeysOf(RealtimeBatch(q))[k] == x;
      assert KeysOf(refs)[k] == x;
    }
  }

  lemma LeavesIsNotPromoted(steps: seq<Step>, x: string)
    requires AllLeave(steps, x)
    ensures NotPromoted(steps, x)
  {
    forall k | 0 <= k < |steps| ensures !(steps[k].Promote? && steps[k].ref.infoHash == x) {
      assert Leaves(steps[k], x);
    }
  }

  /** The spare slots of a run of passes. */
  function SpareSum(q: Queues, passes: seq<seq<Step>>): nat
    decreases |passes|
  {
    if passes == [] then 0 else Spare(q) + SpareSum(Run(q, passes[0]), passes[1..])
  }

  /** A content ref that only the history queue holds, and that no step moves up, is attempted as soon as the passes have had
      more spare slots than there were infohashes ahead of it, if and only if every row of the two files can be read. */
  lemma HistoryWaiting(q: Queues, passes: seq<seq<Step>>, x: string)
    requires Good(q) && Waiting(q, x) && Passes(q, passes) && Undisturbed(passes, x)
    requires SpareSum(q, passes) > Place(q.history, x)
    ensures Collectable(q) <==> exists k :: AttemptedBy(passes, k, History, x)
  {
    hide Good, Waiting, Passes, Collectable, AttemptedBy, Place, SpareSum, Undisturbed;
    if Collectable(q) {
      AttemptedFromHistory(q, passes, x);
    } else {
      forall k: nat { NeverAttempted(q, passes, k, History, x); }
    }
  }

  lemma {:induction false} AttemptedFromHistory(q: Queues, passes: seq<seq<Step>>, x: string)
    requires Good(q) && Collectable(q) && Waiting(q, x) && Passes(q, passes) && Undisturbed(passes, x)
    requires SpareSum(q, passes) > Place(q.history, x)
    ensures exists k :: AttemptedBy(passes, k, History, x)
    decreases |passes|
  {
    hide Good, KeysIn, IsPass, Place, Run, Collectable, Attempted, Spare, NotPromoted, AllLeave, PlainIn, ContentKeys;
    if Attempted(passes[0], History, x) {
      assert AttemptedBy(passes, 0, History, x);
    } else {
      OfferedInHistory(q, x);
      var keys := ContentKeys(q);
      var j :| 0 <= j < |keys| && keys[j] == x;
      LeavesIsNotPromoted(passes[0], x);
      HistoryPass(q, passes[0], j);
      var q', rest := Run(q, passes[0]), passes[1..];
      PassKeepsGood(q, passes[0]);
      PassKeepsWaiting(q, passes[0], x);
      AttemptedFromHistory(q', rest, x);
      var k :| AttemptedBy(rest, k, History, x);
      AttemptedLater(passes, k, History, x);
    }
  }

  lemma OfferedInHistory(q: Queues, x: string)
    requires Waiting(q, x)
    ensures x in ContentKeys(q)
  {
    hide KeysIn, PlainIn, HistoryRefs, Contents;
    OfferedAsContent(q, x);
  }

  // ---------- processQueue ----------

  /** The attempts of a pass that nothing else interrupts. */
  function BareSteps(batch: seq<Entry>, results: seq<Result>): (steps: seq<Step>)
    requires |batch| <= |results|
    ensures |steps| == |batch|
    ensures forall k :: 0 <= k < |steps| ==> steps[k] == Attempt(batch[k].queue, batch[k].ref, results[k])
  {
    seq(|batch|, k requires 0 <= k < |batch| => Attempt(batch[k].queue, batch[k].ref, results[k]))
  }

  lemma {:induction false} RunSnoc(q: Queues, steps: seq<Step>, last: Step)
    ensures Run(q, steps + [last]) == Next(Run(q, steps), last)
    decreases |steps|
  {
    hide Next;
    if steps == [] {
      assert steps + [last] == [last];
      assert [last][1..] == [];
    } else {
      assert (steps + [last])[1..] == steps[1..] + [last];
      RunSnoc(Next(q, steps[0]), steps[1..], last);
    }
  }

  function Files(realtime: SyncQueue, history: SyncQueue): Queues
    reads realtime, history
  {
    Queues(realtime.file, history.file)
  }

  /** processQueue without command-line refs; results are the outcomes of the attempts. */
  method ProcessQueue(realtime: SyncQueue, history: SyncQueue, results: seq<Result>) returns (ok: bool)
    requires realtime != history && |results| >= MAX_REFS
    modifies realtime, history
    ensures ok <==> Collectable(old(Files(realtime, history)))
    ensures |PassBatch(old(Files(realtime, history)))| <= MAX_REFS
    ensures Files(realtime, history)
         == Run(old(Files(realtime, history)), BareSteps(PassBatch(old(Files(realtime, history))), results))
  {
    hide Collectable, RealtimeRefs, HistoryRefs, ByPriority, IsTerminal, Removed, Rotated;
    var q := Files(realtime, history);
    var collected := CollectSyncRefs(q);
    if collected.None? {
      return false;
    }
    var batch := Batch(q);
    assert |batch| <= MAX_REFS;
    ghost var steps := BareSteps(batch, results);
    for k := 0 to |batch|
      invariant Files(realtime, history) == Run(q, steps[..k])
    {
      var ref := batch[k].ref;
      assert steps[..k + 1] == steps[..k] + [steps[k]];
      RunSnoc(q, steps[..k], steps[k]);
      assert batch[k].queue != Direct;
      var queue := if batch[k].queue == Realtime then realtime else history;
      if results[k].Imported? || results[k].Skipped? {
        queue.Remove(ref);
      } else if IsTerminal(ref, results[k].message) {
        queue.Remove(ref);
      } else {
        queue.Rotate(ref);
      }
    }
    assert steps[..|batch|] == steps;
    return true;
  }

  /** What processQueue does is a pass in the sense of the waiting theorems. */
  lemma BareStepsArePass(q: Queues, results: seq<Result>)
    requires Good(q) && |results| >= MAX_REFS
    ensures |PassBatch(q)| <= MAX_REFS && IsPass(q, BareSteps(PassBatch(q), results))
  {
    hide Queueable, Good, Collectable, RealtimeRefs, HistoryRefs, ByPriority;
    assert |Batch(q)| <= MAX_REFS;
    hide Batch;
    BareAttempts(PassBatch(q), results);
    BatchIsQueueable(q);
  }

  lemma {:induction false} BareAttempts(batch: seq<Entry>, results: seq<Result>)
    requires |batch| <= |results|
    ensures Attempts(BareSteps(batch, results)) == batch
    decreases |batch|
  {
    if batch != [] {
      BareAttempts(batch[1..], results[1..]);
      assert BareSteps(batch, results)[1..] == BareSteps(batch[1..], results[1..]);
      assert [batch[0]] + batch[1..] == batch;
    }
  }

  lemma BatchIsQueueable(q: Queues)
    requires Good(q)
    ensures forall k :: 0 <= k < |Batch(q)| ==> Queueable(Batch(q)[k].ref)
  {
    hide Rows, Queueable, IsBytes, WellTerminated, Collect, IsManifest;
    var rt, hist := Rows(Content(q.realtime)), Rows(Content(q.history));
    LineBytes(Content(q.realtime));
    LineBytes(Content(q.history));
    CollectQueueable(rt, {});
    CollectQueueable(hist, Elements(KeysOf(RealtimeRefs(q))));
    ContentsPart(HistoryRefs(q));
    ManifestsPart(HistoryRefs(q));
    hide Contents, Manifests, Spare;
    forall k | 0 <= k < |Batch(q)| ensures Batch(q)[k].ref in RealtimeRefs(q) || Batch(q)[k].ref in HistoryRefs(q) {
      var r, h := RealtimeBatch(q), HistoryBatch(q);
      if k >= |r| {
        assert Batch(q)[k].ref == h[k - |r|];
      }
    }
  }

  lemma {:induction false} ManifestsPart(refs: seq<SyncRef>)
    ensures forall r :: r in Manifests(refs) ==> r in refs
  {
    hide IsManifest;
    if refs != [] {
      ManifestsPart(refs[..|refs| - 1]);
      assert refs == refs[..|refs| - 1] + [refs[|refs| - 1]];
    }
  }

  lemma {:induction false} CollectQueueable(rows: seq<string>, seen: set<string>)
    requires ByteRows(rows)
    ensures forall r :: r in Collect(rows, seen) ==> Queueable(r)
  {
    hide RowRef, Queueable, IsBytes;
    if rows != [] {
      CollectQueueable(rows[..|rows| - 1], seen);
      RowBytes(rows[|rows| - 1]);
    }
  }
}
