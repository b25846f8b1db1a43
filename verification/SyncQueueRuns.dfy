/** Whole runs of queue operations over the realtime and history files, each operation taken as atomic
    (internal/aip2p/sync.go:481-541, 1069-1202, 1646-1723). */
module SyncQueueRuns {
  import opened Options
  import opened SyncQueueFiles
  import opened SyncQueues
  import opened SyncRefs
  import opened Text
  import opened UrlText

  datatype Which = Realtime | History | Direct

  datatype Queues = Queues(realtime: Option<string>, history: Option<string>)

  /** The outcome of one sync attempt. */
  datatype Result = Imported | Skipped | Failed(message: string)

  datatype Step =
    | Enqueue(queue: Which, ref: SyncRef)
    | Attempt(queue: Which, ref: SyncRef, result: Result)
    | Promote(ref: SyncRef)
    | Migrate
    | Sanitize(queue: Which, allowed: string -> bool)

  /** isHistoryManifestRef; the text of a queued ref always parses as a URL. */
  predicate IsManifest(ref: SyncRef) {
    || Contains(AsciiFold(ref.raw), "history-manifest")
    || Contains(AsciiFold(ref.magnet), "history-manifest")
    || Contains(AsciiFold(Get(ParseQuery(RawQuery(Trim(ref.magnet))), "dn")), "history-manifest")
  }

  /** isTerminalSyncFailure. */
  predicate IsTerminal(ref: SyncRef, message: string) {
    var m := AsciiFold(Trim(message));
    Contains(m, "status 404") && (IsManifest(ref) || Contains(m, "/api/bundles/"))
  }

  /** The outcomes after which processQueue drops the ref from its queue. */
  predicate Settles(ref: SyncRef, result: Result) {
    result.Imported? || result.Skipped? || IsTerminal(ref, result.message)
  }

  function FileOf(q: Queues, which: Which): Option<string> {
    match which case Realtime => q.realtime case History => q.history case Direct => None
  }

  function WithFile(q: Queues, which: Which, file: Option<string>): Queues {
    match which
    case Realtime => q.(realtime := file)
    case History => q.(history := file)
    case Direct => q
  }

  function Next(q: Queues, step: Step): Queues {
    match step
    case Enqueue(w, ref) => WithFile(q, w, Enqueued(FileOf(q, w), ref))
    case Attempt(w, ref, result) =>
      WithFile(q, w, if Settles(ref, result) then Removed(FileOf(q, w), ref) else Rotated(FileOf(q, w), ref))
    case Promote(ref) => Queues(Enqueued(q.realtime, ref), Removed(q.history, ref))
    case Migrate =>
      (match q.realtime
       case None => q
       case Some(data) => Queues(Some(MigrateText(data)), Receiving(q.history, Lines(data))))
    case Sanitize(w, allowed) => WithFile(q, w, Cleaned(FileOf(q, w), allowed))
  }

  function Run(q: Queues, steps: seq<Step>): Queues
    decreases |steps|
  {
    if steps == [] then q else Run(Next(q, steps[0]), steps[1..])
  }

  function KeysIn(file: Option<string>): seq<string> {
    Keys(Rows(Content(file)))
  }

  function InertIn(file: Option<string>): seq<string> {
    Inert(Rows(Content(file)))
  }

  ghost predicate GoodFile(file: Option<string>) {
    GoodText(Content(file))
  }

  ghost predicate Good(q: Queues) {
    GoodFile(q.realtime) && GoodFile(q.history)
  }

  /** Some queue holds the infohash. */
  predicate Held(q: Queues, key: string) {
    key in KeysIn(q.realtime) || key in KeysIn(q.history)
  }

  ghost predicate StepOk(step: Step) {
    (step.Enqueue? || step.Attempt? || step.Promote?) ==> Queueable(step.ref)
  }

  /** The step drops this infohash for good reason: its ref was imported, skipped, or is gone for ever. */
  predicate SettlesKey(step: Step, key: string) {
    step.Attempt? && step.ref.infoHash == key && Settles(step.ref, step.result)
  }

  predicate BringsKey(step: Step, key: string) {
    (step.Enqueue? || step.Attempt? || step.Promote?) && step.ref.infoHash == key
  }

  // ---------- One file ----------

  lemma {:induction false} DropKeyIn(keys: seq<string>, key: string, x: string)
    ensures x in DropKey(keys, key) <==> x in keys && x != key
  {
    if keys != [] {
      DropKeyIn(keys[..|keys| - 1], key, x);
      assert keys == keys[..|keys| - 1] + [keys[|keys| - 1]];
    }
  }

  lemma EnqueuedKeys(file: Option<string>, ref: SyncRef)
    requires GoodFile(file) && Queueable(ref)
    ensures GoodFile(Enqueued(file, ref)) && InertIn(Enqueued(file, ref)) == InertIn(file)
    ensures KeysIn(Enqueued(file, ref)) == KeysIn(file) + (if ref.infoHash in KeysIn(file) then [] else [ref.infoHash])
  {
    hide IsBytes, WellTerminated, Rows, Keys, Inert, Queueable, AnyHolds;
    EnqueueKeys(Content(file), ref);
    EnqueueKeepsInert(Content(file), ref);
  }

  lemma RemovedKeys(file: Option<string>, ref: SyncRef)
    requires GoodFile(file) && Queueable(ref)
    ensures GoodFile(Removed(file, ref)) && InertIn(Removed(file, ref)) == InertIn(file)
    ensures KeysIn(Removed(file, ref)) == DropKey(KeysIn(file), ref.infoHash)
  {
    hide IsBytes, WellTerminated, Inert, Queueable, Holds, RowRef;
    if file.Some? {
      RemoveKeys(file.value, ref);
      RemoveKeepsInert(file.value, ref);
      RemoveIsRowwise(file.value, ref);
      RemovedBytes(file.value, ref);
      hide Rows, Keys, RemoveText;
    } else {
      assert Rows("") == [];
    }
  }

  lemma RemovedBytes(data: string, ref: SyncRef)
    requires IsBytes(data)
    ensures IsBytes(RemoveText(data, ref))
  {
    hide Holds, Lines;
    LineBytes(data);
    WithoutPart(Lines(data), ref);
    var kept := Without(Lines(data), ref);
    forall k | 0 <= k < |kept| ensures IsBytes(kept[k]) {
      assert kept[k] in Lines(data);
    }
    JoinBytes(kept);
    StripBytes(Join(kept, '\n'));
  }

  lemma {:induction false} StripBytes(s: string)
    requires IsBytes(s)
    ensures IsBytes(DropTrailing(s, '\n'))
    decreases |s|
  {
    if s != "" && s[|s| - 1] == '\n' {
      StripBytes(s[..|s| - 1]);
    }
  }

  lemma RotatedKeys(file: Option<string>, ref: SyncRef)
    requires GoodFile(file) && Queueable(ref)
    ensures GoodFile(Rotated(file, ref)) && InertIn(Rotated(file, ref)) == InertIn(file)
    ensures KeysIn(Rotated(file, ref)) == DropKey(KeysIn(file), ref.infoHash) + [ref.infoHash]
  {
    hide GoodFile, InertIn, KeysIn, Queueable, Enqueued, Removed, DropKey;
    RemovedKeys(file, ref);
    EnqueuedKeys(Removed(file, ref), ref);
    DropKeyIn(KeysIn(file), ref.infoHash, ref.infoHash);
  }

  lemma CleanedKeys(file: Option<string>, allowed: string -> bool)
    requires GoodFile(file)
    ensures GoodFile(Cleaned(file, allowed)) && InertIn(Cleaned(file, allowed)) == InertIn(file)
    ensures KeysIn(Cleaned(file, allowed)) == KeysIn(file)
    ensures Cleaned(Cleaned(file, allowed), allowed) == Cleaned(file, allowed)
  {
    hide IsBytes, WellTerminated, Inert, Rows, Keys, SanitizeText;
    if file.Some? {
      SanitizeKeepsQueue(allowed, file.value);
    }
  }

  lemma MigratedKeys(q: Queues, key: string)
    requires Good(q)
    ensures Good(Next(q, Migrate)) && (Held(Next(q, Migrate), key) <==> Held(q, key))
    ensures InertIn(Next(q, Migrate).realtime) == InertIn(q.realtime)
    ensures InertIn(Next(q, Migrate).history) == InertIn(q.history)
  {
    hide IsBytes, WellTerminated, Inert, Rows, Keys, MigrateText, MovedInto, Receiving, Lines;
    if q.realtime.Some? {
      ReceivingContent(q.history, Lines(q.realtime.value));
      MigrateConserves(q.realtime.value, Content(q.history), key);
    }
  }

  // ---------- Conservation ----------

  /** The attempt gave this infohash a reason to go: it was imported or skipped, or it failed with a 404 on a history manifest
      or on a bundle. */
  predicate GoneForReason(step: Step, key: string) {
    && step.Attempt? && step.ref.infoHash == key
    && match step.result
       case Imported => true
       case Skipped => true
       case Failed(message) =>
         && Contains(AsciiFold(Trim(message)), "status 404")
         && (MarkedAsManifest(step.ref) || Contains(AsciiFold(Trim(message)), "/api/bundles/"))
  }

  /** The ref says "history-manifest", in any case, in its raw text, its printed form or its display name. */
  predicate MarkedAsManifest(ref: SyncRef) {
    exists text :: text in {ref.raw, ref.magnet, DisplayName(ref)} && Contains(AsciiFold(text), "history-manifest")
  }

  function DisplayName(ref: SyncRef): string {
    Get(ParseQuery(RawQuery(Trim(ref.magnet))), "dn")
  }

  lemma ManifestsAreMarked(ref: SyncRef)
    ensures IsManifest(ref) <==> MarkedAsManifest(ref)
  {
    hide Contains, AsciiFold, ParseQuery, RawQuery, Get;
    if IsManifest(ref) {
      assert ref.raw in {ref.raw, ref.magnet, DisplayName(ref)};
      assert ref.magnet in {ref.raw, ref.magnet, DisplayName(ref)};
      assert DisplayName(ref) in {ref.raw, ref.magnet, DisplayName(ref)};
    }
  }

  lemma SettledForReason(step: Step, key: string)
    ensures SettlesKey(step, key) <==> GoneForReason(step, key)
  {
    hide Contains, AsciiFold, IsManifest, MarkedAsManifest, Trim;
    if step.Attempt? {
      ManifestsAreMarked(step.ref);
    }
  }

  /** What every operation keeps: both files stay well-terminated and keep their comments and unreadable rows, and an
      infohash leaves the two queues only when an attempt settled it. */
  lemma StepConserves(q: Queues, step: Step, key: string)
    requires Good(q) && StepOk(step)
    ensures Good(Next(q, step))
    ensures InertIn(Next(q, step).realtime) == InertIn(q.realtime) && InertIn(Next(q, step).history) == InertIn(q.history)
    ensures Held(q, key) ==> Held(Next(q, step), key) || GoneForReason(step, key)
    ensures Held(Next(q, step), key) ==> Held(q, key) || BringsKey(step, key)
  {
    hide GoodFile, InertIn, KeysIn, Queueable, Enqueued, Removed, Rotated, DropKey, Cleaned, Settles, MigrateText, Receiving,
         GoneForReason;
    SettledForReason(step, key);
    match step
    case Enqueue(w, ref) =>
      if w != Direct { EnqueuedKeys(FileOf(q, w), ref); }
    case Attempt(w, ref, result) =>
      if w != Direct {
        RemovedKeys(FileOf(q, w), ref);
        RotatedKeys(FileOf(q, w), ref);
        DropKeyIn(KeysIn(FileOf(q, w)), ref.infoHash, key);
      }
    case Promote(ref) =>
      RemovedKeys(q.history, ref);
      EnqueuedKeys(q.realtime, ref);
      DropKeyIn(KeysIn(q.history), ref.infoHash, key);
    case Migrate =>
      MigratedKeys(q, key);
    case Sanitize(w, allowed) =>
      if w != Direct { CleanedKeys(FileOf(q, w), allowed); }
  }

  /** What an attempt on a queued ref does to its queue: it is gone after an import or a skip; after a failure it is gone if and
      only if the failure is a 404 on a history manifest or on a bundle, and otherwise stands last, with the others as they
      were. */
  lemma AttemptOutcome(q: Queues, which: Which, ref: SyncRef, result: Result)
    requires Good(q) && Queueable(ref) && which != Direct && ref.infoHash in KeysIn(FileOf(q, which))
    ensures var keys, keys' := KeysIn(FileOf(q, which)), KeysIn(FileOf(Next(q, Attempt(which, ref, result)), which));
            && (result == Imported || result == Skipped ==> ref.infoHash !in keys')
            && (result.Failed? && !Contains(AsciiFold(Trim(result.message)), "status 404") ==> ref.infoHash in keys')
            && (result.Failed? && Contains(AsciiFold(Trim(result.message)), "status 404") ==>
                  (ref.infoHash !in keys' <==>
                     MarkedAsManifest(ref) || Contains(AsciiFold(Trim(result.message)), "/api/bundles/")))
            && (ref.infoHash in keys' ==> keys'[|keys'| - 1] == ref.infoHash)
            && DropKey(keys', ref.infoHash) == DropKey(keys, ref.infoHash)
  {
    hide GoodFile, InertIn, KeysIn, Queueable, Removed, Rotated, DropKey, Contains, AsciiFold, IsManifest, MarkedAsManifest, Trim;
    var file := FileOf(q, which);
    ManifestsAreMarked(ref);
    RemovedKeys(file, ref);
    RotatedKeys(file, ref);
    DropKeyIn(KeysIn(file), ref.infoHash, ref.infoHash);
    DroppedTwice(KeysIn(file), ref.infoHash);
    DroppedAtEnd(DropKey(KeysIn(file), ref.infoHash), ref.infoHash);
  }

  lemma {:induction false} DroppedTwice(keys: seq<string>, key: string)
    ensures DropKey(DropKey(keys, key), key) == DropKey(keys, key)
  {
    if keys != [] {
      DroppedTwice(keys[..|keys| - 1], key);
    }
  }

  lemma DroppedAtEnd(keys: seq<string>, key: string)
    ensures DropKey(keys + [key], key) == DropKey(keys, key)
  {
    assert (keys + [key])[..|keys|] == keys;
  }

  /** Conservation over whole runs: for an infohash that was queued at the start and is not queued at the end, some attempt of
      the run ended in an import or a skip, or failed with a 404 on a history manifest or on a bundle; comments and unreadable
      rows are all still there. */
  lemma {:induction false} RunConserves(q: Queues, steps: seq<Step>, key: string)
    requires Good(q) && forall k :: 0 <= k < |steps| ==> StepOk(steps[k])
    ensures Good(Run(q, steps))
    ensures InertIn(Run(q, steps).realtime) == InertIn(q.realtime) && InertIn(Run(q, steps).history) == InertIn(q.history)
    ensures Held(q, key) && !Held(Run(q, steps), key) ==> exists k :: 0 <= k < |steps| && GoneForReason(steps[k], key)
    ensures !Held(q, key) && Held(Run(q, steps), key) ==> exists k :: 0 <= k < |steps| && BringsKey(steps[k], key)
    decreases |steps|
  {
    hide Good, InertIn, Held, Next, GoneForReason, BringsKey, StepOk;
    if steps != [] {
      StepConserves(q, steps[0], key);
      var rest := steps[1..];
      RunConserves(Next(q, steps[0]), rest, key);
      if Held(q, key) && !Held(Run(q, steps), key) && !GoneForReason(steps[0], key) {
        var k :| 0 <= k < |rest| && GoneForReason(rest[k], key);
        assert steps[k + 1] == rest[k];
      }
      if !Held(q, key) && Held(Run(q, steps), key) && !BringsKey(steps[0], key) {
        var k :| 0 <= k < |rest| && BringsKey(rest[k], key);
        assert steps[k + 1] == rest[k];
      }
    }
  }

  /** A settled ref leaves its queue, whatever else is in it. */
  lemma SettledLeaves(q: Queues, which: Which, ref: SyncRef, result: Result)
    requires Good(q) && Queueable(ref) && Settles(ref, result) && which != Direct
    ensures ref.infoHash !in KeysIn(FileOf(Next(q, Attempt(which, ref, result)), which))
  {
    hide GoodFile, InertIn, KeysIn, Queueable, Removed, DropKey, Settles;
    RemovedKeys(FileOf(q, which), ref);
    DropKeyIn(KeysIn(FileOf(q, which)), ref.infoHash, ref.infoHash);
  }

  // ---------- Without the final newline ----------

  /** The case well-terminated texts shut out: a file holding one infohash without a final newline loses it, and the new
      ref as well, when a ref is enqueued. Sanitizing and migrating leave such a file as it is. */
  lemma UnterminatedAppendLosesBoth(hash: string, text: string)
    requires IsInfoHash(hash) && IsBytes(text) && ParseSyncRef(text).Some?
    requires ParseSyncRef(text).value.infoHash != Lower(hash)
    ensures Keys(Rows(hash)) == [Lower(hash)] && Moves(hash) == false
    ensures var after := EnqueueText(hash, ParseSyncRef(text).value); after.added && Keys(Rows(after.data)) == []
  {
    hide Trim, RowRef, ParseSyncRef, Lines, WellTerminated, Contains, Holds, IsBytes, IsInfoHash, Lower, IsComment;
    var ref := ParseSyncRef(text).value;
    ParsedIsQueueable(text);
    HashRow(hash, ref);
    HashLines(hash, ref.magnet);
    KeysSnoc([], hash);
    KeysSnoc([], hash + ref.magnet);
    assert [] + [hash] == [hash] && [] + [hash + ref.magnet] == [hash + ref.magnet];
    HashDoesNotMove(hash);
  }

  lemma HashDoesNotMove(hash: string)
    requires IsInfoHash(hash)
    ensures !Moves(hash)
  {
    hide RowRef, IsComment;
    HexIsTrimmed(hash);
    FoldAscii(hash);
    NoManifest(Lower(hash));
  }

  lemma {:induction false} NoManifest(s: string)
    requires forall k :: 0 <= k < |s| ==> s[k] != 'h'
    ensures !Contains(s, "history-manifest")
  {
    assert "history-manifest"[0] == 'h';
    if s != "" {
      NoManifest(s[1..]);
    }
  }

  lemma HashLines(hash: string, magnet: string)
    requires IsInfoHash(hash) && '\n' !in magnet && magnet != ""
    ensures Lines(hash) == [hash] == Rows(hash)
    ensures Rows(hash + magnet + "\n") == [hash + magnet]
  {
    SplitPlain(hash, '\n');
    SplitAppendText(hash, magnet);
  }

  lemma HashRow(hash: string, ref: SyncRef)
    requires IsInfoHash(hash) && Queueable(ref) && ref.infoHash != Lower(hash)
    ensures RowRef(hash).Some? && RowRef(hash).value.infoHash == Lower(hash)
    ensures RowRef(hash + ref.magnet).None?
    ensures !Holds(hash, ref)
  {
    PlainHash(hash);
    GluedRow(hash, ref.magnet);
    HashBytes(hash);
    SameIsKey(hash, ref);
    hide RowRef, Holds, Queueable, Trim, ParseSyncRef, IsInfoHash, Lower, IsBytes;
  }

  lemma HashBytes(hash: string)
    requires IsInfoHash(hash)
    ensures IsBytes(hash)
  {}

  lemma PlainHash(hash: string)
    requires IsInfoHash(hash)
    ensures RowRef(hash).Some? && RowRef(hash).value.infoHash == Lower(hash)
  {
    HexIsTrimmed(hash);
    HexIsNoPrefix(hash);
    assert hash[0] != '#' && hash[0] != ';' && hash[0] != '/';
    hide Trim, Canonical, ParseSyncUri, ParseMagnet, Lower, HasPrefix;
  }

  lemma HexIsNoPrefix(s: string)
    requires |s| >= 2 && IsHexDigit(s[0]) && IsHexDigit(s[1])
    ensures !HasPrefix(Lower(s), SYNC_PREFIX) && !HasPrefix(Lower(s), MAGNET_PREFIX)
    ensures !HasPrefix(s, "#") && !HasPrefix(s, ";") && !HasPrefix(s, "//")
  {
    assert Lower(s)[1] == LowerChar(s[1]) && SYNC_PREFIX[1] == 'i';
    assert Lower(s)[0] == LowerChar(s[0]) && MAGNET_PREFIX[0] == 'm';
  }

  lemma GluedRow(hash: string, magnet: string)
    requires IsInfoHash(hash) && Trim(magnet) == magnet != ""
    ensures RowRef(hash + magnet).None?
  {
    var row := hash + magnet;
    assert IsHexDigit(hash[0]) && IsHexDigit(hash[1]);
    assert row[0] == hash[0] && row[1] == hash[1];
    TrimmedText(magnet);
    assert SpaceAt(row) == 0;
    assert |magnet| >= 1 ==> row[|row| - 1] == magnet[|magnet| - 1];
    assert |magnet| >= 2 ==> row[|row| - 2] == magnet[|magnet| - 2];
    assert |magnet| >= 3 ==> row[|row| - 3] == magnet[|magnet| - 3];
    assert IsHexDigit(hash[|hash| - 1]) && IsHexDigit(hash[|hash| - 2]);
    assert |magnet| == 1 ==> row[|row| - 2] == hash[|hash| - 1] && row[|row| - 3] == hash[|hash| - 2];
    assert |magnet| == 2 ==> row[|row| - 3] == hash[|hash| - 1];
    assert SpaceBefore(row) == 0;
    assert Trim(row) == row;
    HexIsNoPrefix(row);
    hide Lower, HasPrefix, ParseSyncUri, ParseMagnet;
  }

  lemma TrimmedText(s: string)
    requires Trim(s) == s
    ensures Trimmed(s)
  {
    TrimIsTrimmed(s);
  }
}
