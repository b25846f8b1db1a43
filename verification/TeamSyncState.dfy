/** The persisted state of Team sync: the pending table, peer acks, conflicts, compaction by age and rank,
    and the merge with the copy on disk (internal/aip2p/team_sync.go). */
module TeamSyncState {
  import opened Sorting

  /** Whole seconds; 0 is Go's zero time. */
  type Time = nat

  const ACK_RETRY_AFTER := 15
  const PEER_ACK_TTL := 24 * 3600
  const PEER_ACK_PER_PEER := 128
  const PENDING_MAX_RETRY := 8
  const PENDING_MAX_AGE := 6 * 3600
  const RESOLVED_TTL := 2 * 3600
  const CONFLICT_RESOLVED_TTL := 24 * 3600

  /** Blank is the empty status text of an older file. */
  datatype Status = Blank | Pending | Superseded | Acked | Expired

  datatype PendingItem = PendingItem(versionAt: Time, stateKey: string, status: Status, updatedAt: Time, retries: int)
  datatype PeerAck = PeerAck(appliedAt: Time, updatedAt: Time)
  datatype Conflict = Conflict(reason: string, resolution: string, resolvedAt: Time, updatedAt: Time)
  datatype Checkpoint = Checkpoint(versionAt: Time, key: string)

  type PendingTable = map<string, PendingItem>
  type PeerEntries = map<string, PeerAck>
  type PeerAcks = map<string, PeerEntries>
  type Conflicts = map<string, Conflict>

  datatype State = State(
    checkpoints: map<string, Checkpoint>,
    applied: map<string, Checkpoint>,
    pending: PendingTable,
    peerAcks: PeerAcks,
    conflicts: Conflicts)

  const EMPTY := State(map[], map[], map[], map[], map[])

  /** t is set and lies more than ttl before now. */
  predicate OlderThan(t: Time, now: Time, ttl: nat) {
    t != 0 && t < now - ttl
  }

  // ---------- Compaction ----------

  predicate CountsAsPending(item: PendingItem) {
    item.status.Blank? || item.status.Pending?
  }

  predicate Overdue(item: PendingItem, now: Time) {
    OlderThan(item.updatedAt, now, PENDING_MAX_AGE) || item.retries >= PENDING_MAX_RETRY
  }

  /** A settled entry goes two hours after it settled; a pending one never goes, it expires first. */
  predicate KeepsPending(item: PendingItem, now: Time) {
    CountsAsPending(item) || !OlderThan(item.updatedAt, now, RESOLVED_TTL)
  }

  function CompactItem(item: PendingItem, now: Time): PendingItem {
    if CountsAsPending(item) && Overdue(item, now) then item.(status := Expired, updatedAt := now) else item
  }

  function CompactPending(pending: PendingTable, now: Time): PendingTable {
    map key | key in pending && KeepsPending(pending[key], now) :: CompactItem(pending[key], now)
  }

  predicate Resolved(c: Conflict) {
    c.resolution != ""
  }

  /** The age of a resolved conflict counts from its resolution or, failing that, its last update. */
  function SettledAt(c: Conflict): Time {
    if c.resolvedAt == 0 then c.updatedAt else c.resolvedAt
  }

  predicate AgedOut(c: Conflict, now: Time) {
    Resolved(c) && SettledAt(c) != 0 && SettledAt(c) <= now - CONFLICT_RESOLVED_TTL
  }

  function CompactConflicts(conflicts: Conflicts, now: Time): Conflicts {
    map key | key in conflicts && !AgedOut(conflicts[key], now) :: conflicts[key]
  }

  predicate AckExpired(ack: PeerAck, now: Time) {
    OlderThan(ack.updatedAt, now, PEER_ACK_TTL)
  }

  /** `top` holds the latest acks, as many as are kept per peer; ties are left open, as the map's order is. */
  ghost predicate Latest(entries: PeerEntries, top: set<string>) {
    && top <= entries.Keys
    && |top| == (if |entries| < PEER_ACK_PER_PEER then |entries| else PEER_ACK_PER_PEER)
    && forall a, b :: a in top && b in entries && b !in top ==> entries[b].updatedAt <= entries[a].updatedAt
  }

  /** `out` is what compaction keeps of one peer's acks. */
  ghost predicate TrimmedAcks(entries: PeerEntries, now: Time, out: PeerEntries) {
    exists top :: Latest(entries, top) && out == map key | key in top && !AckExpired(entries[key], now) :: entries[key]
  }

  ghost predicate CompactedAcks(acks: PeerAcks, now: Time, out: PeerAcks) {
    && out.Keys <= acks.Keys
    && (forall peer <- out :: out[peer] != map[] && TrimmedAcks(acks[peer], now, out[peer]))
    && (forall peer <- acks :: peer !in out ==> TrimmedAcks(acks[peer], now, map[]))
  }

  ghost predicate Compacted(s: State, now: Time, t: State) {
    && t.checkpoints == s.checkpoints && t.applied == s.applied
    && t.pending == CompactPending(s.pending, now)
    && t.conflicts == CompactConflicts(s.conflicts, now)
    && CompactedAcks(s.peerAcks, now, t.peerAcks)
  }

  /** At most 128 acks per peer, none older than a day, and no dropped unexpired ack newer than a kept one. */
  lemma TrimmedAcksBounds(entries: PeerEntries, now: Time, out: PeerEntries)
    requires TrimmedAcks(entries, now, out)
    ensures |out| <= PEER_ACK_PER_PEER
    ensures forall key <- out :: key in entries && out[key] == entries[key] && !AckExpired(out[key], now)
    ensures forall dropped, kept :: dropped in entries && dropped !in out && !AckExpired(entries[dropped], now) && kept in out
              ==> entries[dropped].updatedAt <= out[kept].updatedAt
  {
    var top :| Latest(entries, top) && out == map key | key in top && !AckExpired(entries[key], now) :: entries[key];
    SubsetSize(out.Keys, top);
    assert |out| == |out.Keys|;
  }

  /** Trimming what is already trimmed keeps everything. */
  lemma TrimAgain(entries: PeerEntries, now: Time, out: PeerEntries, again: PeerEntries)
    requires TrimmedAcks(entries, now, out) && TrimmedAcks(out, now, again)
    ensures again == out
  {
    TrimmedAcksBounds(entries, now, out);
    var top :| Latest(out, top) && again == map key | key in top && !AckExpired(out[key], now) :: out[key];
    SubsetSize(top, out.Keys);
    assert |out| == |out.Keys|;
    assert top == out.Keys;
  }

  /** Compaction at a fixed clock is idempotent. */
  lemma CompactIdempotent(s: State, now: Time, t: State, u: State)
    requires Compacted(s, now, t) && Compacted(t, now, u)
    ensures u == t
  {
    assert u.pending == t.pending;
    assert u.conflicts == t.conflicts;
    forall peer | peer in t.peerAcks
      ensures peer in u.peerAcks && u.peerAcks[peer] == t.peerAcks[peer]
    {
      var again := if peer in u.peerAcks then u.peerAcks[peer] else map[];
      TrimAgain(s.peerAcks[peer], now, t.peerAcks[peer], again);
    }
    assert u.peerAcks == t.peerAcks;
  }

  /** After compaction no pending entry has used up its retries or is older than six hours. */
  lemma CompactedPendingIsFresh(s: State, now: Time, t: State, key: string)
    requires Compacted(s, now, t) && key in t.pending && CountsAsPending(t.pending[key])
    ensures t.pending[key].retries < PENDING_MAX_RETRY
    ensures t.pending[key].updatedAt == 0 || t.pending[key].updatedAt >= now - PENDING_MAX_AGE
    ensures key in s.pending && t.pending[key] == s.pending[key]
  {}

  /** Compaction of the pending table, entry by entry: a pending entry stays, expired now once it is over six hours old or has
      used up its eight retries; a settled one stays as it is for two hours. */
  lemma PendingCompactsExactly(pending: PendingTable, now: Time, key: string)
    requires key in pending
    ensures var item, out := pending[key], CompactPending(pending, now);
            var open := item.status == Pending || item.status == Blank;
            var overdue := (item.updatedAt > 0 && now > item.updatedAt + 6 * 3600) || item.retries >= 8;
            && (key in out <==> open || item.updatedAt == 0 || now <= item.updatedAt + 2 * 3600)
            && (key in out && open && overdue ==> out[key] == item.(status := Expired, updatedAt := now))
            && (key in out && !(open && overdue) ==> out[key] == item)
  {}

  lemma CompactionAddsNothing(s: State, now: Time, t: State)
    requires Compacted(s, now, t)
    ensures t.pending.Keys <= s.pending.Keys && t.conflicts.Keys <= s.conflicts.Keys && t.peerAcks.Keys <= s.peerAcks.Keys
    ensures t.checkpoints == s.checkpoints && t.applied == s.applied
  {}

  /** A conflict goes exactly when it is resolved and a day has passed since then. */
  lemma ConflictsCompactExactly(conflicts: Conflicts, now: Time, key: string)
    requires key in conflicts
    ensures var c, out := conflicts[key], CompactConflicts(conflicts, now);
            var since := if c.resolvedAt > 0 then c.resolvedAt else c.updatedAt;
            && (key !in out <==> c.resolution != "" && since > 0 && now >= since + 24 * 3600)
            && (key in out ==> out[key] == c)
  {}

  /** An ack over a day old goes; any other is kept, unless 128 others of the peer are at least as new. */
  lemma DroppedAckWasOutranked(entries: PeerEntries, now: Time, out: PeerEntries, key: string)
    requires TrimmedAcks(entries, now, out) && key in entries
    ensures entries[key].updatedAt > 0 && now > entries[key].updatedAt + 24 * 3600 ==> key !in out
    ensures key !in out && (entries[key].updatedAt == 0 || now <= entries[key].updatedAt + 24 * 3600) ==>
              exists newer: set<string> :: |newer| == 128 && key !in newer && newer <= entries.Keys
                && forall other <- newer :: entries[other].updatedAt >= entries[key].updatedAt
  {
    var top :| Latest(entries, top) && out == map k | k in top && !AckExpired(entries[k], now) :: entries[k];
    SubsetSize(top + {key}, entries.Keys);
    assert |entries| == |entries.Keys|;
    assert key !in top ==> |top + {key}| == |top| + 1;
  }

  // ---------- Merge ----------

  function MergePeer(dst: PeerEntries, src: PeerEntries): PeerEntries {
    map key | key in dst.Keys + src.Keys ::
      if key !in dst || (key in src && src[key].updatedAt > dst[key].updatedAt) then src[key] else dst[key]
  }

  function EntriesOf(acks: PeerAcks, peer: string): PeerEntries {
    if peer in acks then acks[peer] else map[]
  }

  function MergeAcks(dst: PeerAcks, src: PeerAcks): PeerAcks {
    map peer | peer in dst.Keys + src.Keys :: MergePeer(EntriesOf(dst, peer), EntriesOf(src, peer))
  }

  function MergeConflict(current: Conflict, incoming: Conflict): Conflict {
    if incoming.updatedAt > current.updatedAt then incoming
    else if !Resolved(current) && Resolved(incoming) then incoming
    else current
  }

  function MergeConflicts(dst: Conflicts, src: Conflicts): Conflicts {
    map key | key in dst.Keys + src.Keys ::
      if key !in dst then src[key]
      else if key in src then MergeConflict(dst[key], src[key])
      else dst[key]
  }

  /** mergeTeamSyncState: the memory copy `incoming` wins except for acks and conflicts. */
  function Merge(existing: State, incoming: State): State {
    incoming.(peerAcks := MergeAcks(incoming.peerAcks, existing.peerAcks),
              conflicts := MergeConflicts(incoming.conflicts, existing.conflicts))
  }

  /** What writeTeamSyncState makes of `incoming`; without the file, if that could not be read. */
  ghost predicate Written(disk: State, incoming: State, loaded: bool, clock: Time, out: State) {
    Compacted(if loaded then Merge(disk, incoming) else incoming, clock, out)
  }

  /** A merge holds the newest stamp each side knows for every ack, and invents none. */
  lemma MergeKeepsNewestAck(dst: PeerEntries, src: PeerEntries, key: string)
    requires key in dst || key in src
    ensures var m := MergePeer(dst, src);
            && key in m
            && (key in dst ==> dst[key].updatedAt <= m[key].updatedAt)
            && (key in src ==> src[key].updatedAt <= m[key].updatedAt)
            && ((key in dst && m[key] == dst[key]) || (key in src && m[key] == src[key]))
  {}

  predicate HoldsResolution(s: State, key: string) {
    key in s.conflicts && Resolved(s.conflicts[key])
  }

  /** The merge of all acks holds exactly the acks of both sides, for every peer and key the newer entry. */
  lemma MergedAcksAreNewest(dst: PeerAcks, src: PeerAcks, peer: string, key: string)
    ensures var m := MergeAcks(dst, src);
            var inDst, inSrc := peer in dst && key in dst[peer], peer in src && key in src[peer];
            && (peer in m <==> peer in dst || peer in src)
            && (peer in m ==> (key in m[peer] <==> inDst || inSrc))
            && (inDst && (!inSrc || src[peer][key].updatedAt <= dst[peer][key].updatedAt) ==> m[peer][key] == dst[peer][key])
            && (inSrc && (!inDst || dst[peer][key].updatedAt < src[peer][key].updatedAt) ==> m[peer][key] == src[peer][key])
  {}

  /** What a write puts together: acks and conflicts of both sides, everything else from memory. The file's conflict replaces
      the one in memory exactly if it is newer, or resolved while that one is not. */
  lemma MergeTakesFromBoth(existing: State, incoming: State, key: string)
    ensures var m := Merge(existing, incoming);
            && m.checkpoints == incoming.checkpoints && m.applied == incoming.applied && m.pending == incoming.pending
            && m.peerAcks.Keys == existing.peerAcks.Keys + incoming.peerAcks.Keys
            && (key in m.conflicts <==> key in existing.conflicts || key in incoming.conflicts)
            && (key in incoming.conflicts && key !in existing.conflicts ==> m.conflicts[key] == incoming.conflicts[key])
            && (key in existing.conflicts && key !in incoming.conflicts ==> m.conflicts[key] == existing.conflicts[key])
            && (key in existing.conflicts && key in incoming.conflicts ==>
                  var file, mine := existing.conflicts[key], incoming.conflicts[key];
                  var fileWins := file.updatedAt > mine.updatedAt || (mine.resolution == "" && file.resolution != "");
                  m.conflicts[key] == if fileWins then file else mine)
  {}

  /** A conflict resolved on disk is still resolved after a write that keeps its entry, if and only if the write read the file
      or brings a resolved entry itself; a write that read the file drops the entry only when it has aged out. */
  lemma WriteKeepsResolution(disk: State, incoming: State, loaded: bool, clock: Time, out: State, key: string)
    requires Written(disk, incoming, loaded, clock, out) && HoldsResolution(disk, key)
    ensures key in out.conflicts ==> (HoldsResolution(out, key) <==> loaded || HoldsResolution(incoming, key))
    ensures loaded && key !in out.conflicts ==>
              AgedOut(disk.conflicts[key], clock) || (key in incoming.conflicts && AgedOut(incoming.conflicts[key], clock))
  {}

  /** One write of a run: some process's memory copy, whether it could read the file, and its clock. */
  datatype Write = Write(incoming: State, loaded: bool, clock: Time)

  ghost predicate WriteRun(disks: seq<State>, writes: seq<Write>) {
    && |disks| == |writes| + 1
    && forall i :: 0 <= i < |writes| ==> Written(disks[i], writes[i].incoming, writes[i].loaded, writes[i].clock, disks[i + 1])
  }

  /** The write read the file or brings a resolved entry itself. */
  predicate Respects(w: Write, key: string) {
    w.loaded || HoldsResolution(w.incoming, key)
  }

  /** Over any run of writes by any processes in which the entry of a resolved conflict does not age out, it stays resolved
      throughout if and only if every write that could not read the file brought a resolved entry itself. */
  lemma {:induction false} ResolutionIsFinal(disks: seq<State>, writes: seq<Write>, key: string, n: nat)
    requires WriteRun(disks, writes) && n < |disks| && HoldsResolution(disks[0], key)
    requires forall i :: 0 <= i <= n ==> key in disks[i].conflicts
    ensures (forall i :: 0 <= i <= n ==> HoldsResolution(disks[i], key)) <==> (forall i :: 0 <= i < n ==> Respects(writes[i], key))
  {
    hide HoldsResolution, Written;
    if n > 0 {
      ResolutionIsFinal(disks, writes, key, n - 1);
      if HoldsResolution(disks[n - 1], key) {
        var w := writes[n - 1];
        WriteKeepsResolution(disks[n - 1], w.incoming, w.loaded, w.clock, disks[n], key);
      }
    }
  }

  // ---------- Updates of the state in memory ----------

  function PutCheckpoint(s: State, stateKey: string, checkpoint: Checkpoint, applied: bool): State {
    if applied then s.(applied := s.applied[stateKey := checkpoint])
    else s.(checkpoints := s.checkpoints[stateKey := checkpoint])
  }

  function SupersedeItem(item: PendingItem, stateKey: string, now: Time): PendingItem {
    if item.stateKey == stateKey && item.status.Pending? then item.(status := Superseded, updatedAt := now) else item
  }

  /** persistPending: the other pending entries of the state key give way to this one. */
  function PutPending(s: State, key: string, stateKey: string, version: Time, now: Time): State {
    var retries := if key in s.pending && s.pending[key].retries > 0 then s.pending[key].retries else 0;
    s.(pending :=
         (map k | k in s.pending && k != key :: SupersedeItem(s.pending[k], stateKey, now))
         [key := PendingItem(version, stateKey, Pending, now, retries)])
  }

  /** bumpPendingRetry. */
  function BumpRetry(s: State, key: string, now: Time): State
    requires key in s.pending
  {
    var item := s.pending[key];
    s.(pending := s.pending[key := item.(status := Pending, retries := item.retries + 1, updatedAt := now)])
  }

  /** clearPending and markPendingStatus. */
  function SetStatus(s: State, key: string, status: Status, now: Time): State
    requires key in s.pending
  {
    s.(pending := s.pending[key := s.pending[key].(status := status, updatedAt := now)])
  }

  function PutPeerAck(s: State, peer: string, key: string, appliedAt: Time, now: Time): State {
    var entries := EntriesOf(s.peerAcks, peer);
    s.(peerAcks := s.peerAcks[peer := entries[key := PeerAck(appliedAt, now)]])
  }

  function PutConflict(s: State, key: string, reason: string, resolution: string, resolvedAt: Time, now: Time): State {
    s.(conflicts := s.conflicts[key := Conflict(reason, resolution, resolvedAt, now)])
  }

  /** Recording a key as pending: it alone of its state key is pending afterwards, with this version, stamped now, with the
      retries it had; the pending entries it replaces are superseded and stamped now; no other entry and no other table
      changes. */
  lemma RecordingPendingIsExact(s: State, key: string, stateKey: string, version: Time, now: Time, other: string)
    ensures var t := PutPending(s, key, stateKey, version, now);
            && t.pending.Keys == s.pending.Keys + {key}
            && t.pending[key].status == Pending && t.pending[key].stateKey == stateKey
            && t.pending[key].versionAt == version && t.pending[key].updatedAt == now
            && (key in s.pending && s.pending[key].retries >= 0 ==> t.pending[key].retries == s.pending[key].retries)
            && (key !in s.pending || s.pending[key].retries < 0 ==> t.pending[key].retries == 0)
            && (other != key && other in s.pending ==>
                  var replaced := s.pending[other].stateKey == stateKey && s.pending[other].status == Pending;
                  && (!replaced ==> t.pending[other] == s.pending[other])
                  && (replaced ==> t.pending[other] == s.pending[other].(status := Superseded, updatedAt := now)))
            && t == s.(pending := t.pending)
  {}

  /** Recording an ack or a conflict changes one entry of one table: the ack of one peer for one key, the conflict of one key. */
  lemma UpdatesAreLocal(s: State, peer: string, key: string, other: string, at: Time, now: Time, c: Conflict)
    ensures var t := PutPeerAck(s, peer, key, at, now);
            && t == s.(peerAcks := t.peerAcks) && t.peerAcks.Keys == s.peerAcks.Keys + {peer}
            && key in t.peerAcks[peer] && t.peerAcks[peer][key] == PeerAck(at, now)
            && (other in s.peerAcks && other != peer ==> t.peerAcks[other] == s.peerAcks[other])
            && (peer in s.peerAcks ==> t.peerAcks[peer].Keys == s.peerAcks[peer].Keys + {key})
            && (peer in s.peerAcks && other in s.peerAcks[peer] && other != key ==>
                  t.peerAcks[peer][other] == s.peerAcks[peer][other])
    ensures var t := PutConflict(s, key, c.reason, c.resolution, c.resolvedAt, now);
            && t == s.(conflicts := t.conflicts) && t.conflicts.Keys == s.conflicts.Keys + {key}
            && t.conflicts[key] == c.(updatedAt := now)
            && (other in s.conflicts && other != key ==> t.conflicts[other] == s.conflicts[other])
  {}

  /** So do a status and a retry: one pending entry and its stamp. */
  lemma PendingUpdatesAreLocal(s: State, key: string, other: string, now: Time, status: Status)
    ensures key in s.pending ==>
              var t := SetStatus(s, key, status, now);
              && t == s.(pending := t.pending) && t.pending.Keys == s.pending.Keys
              && t.pending[key] == s.pending[key].(status := status, updatedAt := now)
              && (other in s.pending && other != key ==> t.pending[other] == s.pending[other])
    ensures key in s.pending ==>
              var t := BumpRetry(s, key, now);
              && t == s.(pending := t.pending) && t.pending.Keys == s.pending.Keys
              && t.pending[key] == s.pending[key].(status := Pending, updatedAt := now, retries := s.pending[key].retries + 1)
              && (other in s.pending && other != key ==> t.pending[other] == s.pending[other])
  {}

  /** teamSyncVersionAfter. */
  predicate VersionAfter(next: Time, current: Time) {
    next != 0 && (current == 0 || next > current)
  }

  /** With the zero time before all others it is the order of times. */
  lemma VersionsAreOrdered(next: Time, current: Time)
    ensures VersionAfter(next, current) <==> next > current
  {}

  // ---------- Loops of the runtime ----------

  type Pair = (string, PeerAck)

  /** A map's entries in the arbitrary order of a range loop, sorted by latest update first. */
  ghost predicate SortedPairs(pairs: seq<Pair>) {
    forall i, j :: 0 <= i < j < |pairs| ==> pairs[j].1.updatedAt <= pairs[i].1.updatedAt
  }

  ghost predicate PairsOf(entries: PeerEntries, pairs: seq<Pair>) {
    && (forall i :: 0 <= i < |pairs| ==> pairs[i].0 in entries && pairs[i].1 == entries[pairs[i].0])
    && (forall i, j :: 0 <= i < j < |pairs| ==> pairs[i].0 != pairs[j].0)
    && |pairs| == |entries|
  }

  /** sort.SliceStable on (entries of) one peer: insertion into a sorted list. */
  method InsertPair(pairs: seq<Pair>, pair: Pair) returns (out: seq<Pair>, ghost at: nat)
    requires SortedPairs(pairs)
    ensures SortedPairs(out) && at <= |pairs| && out == pairs[..at] + [pair] + pairs[at..]
  {
    var i := 0;
    while i < |pairs| && pairs[i].1.updatedAt >= pair.1.updatedAt
      invariant 0 <= i <= |pairs|
      invariant forall j :: 0 <= j < i ==> pairs[j].1.updatedAt >= pair.1.updatedAt
    {
      i := i + 1;
    }
    return pairs[..i] + [pair] + pairs[i..], i;
  }

  /** The pairs of some of the keys, each once. */
  ghost predicate PairsFor(entries: PeerEntries, done: set<string>, pairs: seq<Pair>) {
    && done <= entries.Keys && |pairs| == |done|
    && (forall i :: 0 <= i < |pairs| ==> pairs[i].0 in done && pairs[i].1 == entries[pairs[i].0])
    && (forall i, j :: 0 <= i < j < |pairs| ==> pairs[i].0 != pairs[j].0)
  }

  lemma OneMorePair(entries: PeerEntries, done: set<string>, pairs: seq<Pair>, key: string, at: nat)
    requires PairsFor(entries, done, pairs) && key in entries && key !in done && at <= |pairs|
    ensures PairsFor(entries, done + {key}, pairs[..at] + [(key, entries[key])] + pairs[at..])
  {
    var out := pairs[..at] + [(key, entries[key])] + pairs[at..];
    assert forall i :: 0 <= i < |out| ==>
             out[i] == if i < at then pairs[i] else if i == at then (key, entries[key]) else pairs[i - 1];
  }

  lemma AllPairs(entries: PeerEntries, pairs: seq<Pair>)
    requires PairsFor(entries, entries.Keys, pairs)
    ensures PairsOf(entries, pairs)
  {
    assert |entries| == |entries.Keys|;
  }

  method SortPairs(entries: PeerEntries) returns (pairs: seq<Pair>)
    ensures SortedPairs(pairs) && PairsOf(entries, pairs)
  {
    pairs := [];
    var rest := entries.Keys;
    ghost var done: set<string> := {};
    assert PairsFor(entries, done, pairs);
    hide PairsFor, PairsOf;
    while rest != {}
      invariant rest <= entries.Keys && rest + done == entries.Keys && rest !! done
      invariant SortedPairs(pairs) && PairsFor(entries, done, pairs)
      decreases rest
    {
      var key := Pick(rest);
      ghost var before := pairs;
      ghost var at;
      pairs, at := InsertPair(pairs, (key, entries[key]));
      OneMorePair(entries, done, before, key, at);
      rest, done := rest - {key}, done + {key};
    }
    assert done == entries.Keys;
    AllPairs(entries, pairs);
  }

  ghost function KeysUpTo(pairs: seq<Pair>, n: nat): set<string>
    requires n <= |pairs|
  {
    set i | 0 <= i < n :: pairs[i].0
  }

  lemma {:induction false} KeysUpToSize(pairs: seq<Pair>, n: nat)
    requires n <= |pairs| && forall i, j :: 0 <= i < j < |pairs| ==> pairs[i].0 != pairs[j].0
    ensures |KeysUpTo(pairs, n)| == n
  {
    if n > 0 {
      KeysUpToSize(pairs, n - 1);
      assert KeysUpTo(pairs, n) == KeysUpTo(pairs, n - 1) + {pairs[n - 1].0};
      assert pairs[n - 1].0 !in KeysUpTo(pairs, n - 1);
    } else {
      assert KeysUpTo(pairs, 0) == {};
    }
  }

  /** The first 128 of the sorted pairs are a set of latest acks. */
  lemma PrefixIsLatest(entries: PeerEntries, pairs: seq<Pair>)
    requires SortedPairs(pairs) && PairsOf(entries, pairs)
    ensures var n := if |pairs| < PEER_ACK_PER_PEER then |pairs| else PEER_ACK_PER_PEER;
            Latest(entries, KeysUpTo(pairs, n)) && KeysUpTo(pairs, |pairs|) == entries.Keys
  {
    var n := if |pairs| < PEER_ACK_PER_PEER then |pairs| else PEER_ACK_PER_PEER;
    var top := KeysUpTo(pairs, n);
    KeysUpToSize(pairs, n);
    KeysUpToSize(pairs, |pairs|);
    assert KeysUpTo(pairs, |pairs|) <= entries.Keys;
    SubsetSize(KeysUpTo(pairs, |pairs|), entries.Keys);
    assert |entries| == |entries.Keys|;
    forall a, b | a in top && b in entries && b !in top
      ensures entries[b].updatedAt <= entries[a].updatedAt
    {
      var i :| 0 <= i < n && pairs[i].0 == a;
      assert b in KeysUpTo(pairs, |pairs|);
      var j :| 0 <= j < |pairs| && pairs[j].0 == b;
      assert j >= n;
    }
  }

  ghost function KeptUpTo(entries: PeerEntries, pairs: seq<Pair>, n: nat, now: Time): PeerEntries
    requires PairsOf(entries, pairs) && n <= |pairs|
  {
    map key | key in KeysUpTo(pairs, n) && !AckExpired(entries[key], now) :: entries[key]
  }

  lemma KeptStep(entries: PeerEntries, pairs: seq<Pair>, n: nat, now: Time)
    requires PairsOf(entries, pairs) && n < |pairs|
    ensures KeptUpTo(entries, pairs, 0, now) == map[]
    ensures var kept := KeptUpTo(entries, pairs, n, now);
            KeptUpTo(entries, pairs, n + 1, now) == if AckExpired(pairs[n].1, now) then kept else kept[pairs[n].0 := pairs[n].1]
  {
    assert KeysUpTo(pairs, n + 1) == KeysUpTo(pairs, n) + {pairs[n].0};
  }

  /** The per-peer loop of compactTeamSyncState. */
  method TrimPeer(entries: PeerEntries, now: Time) returns (trimmed: PeerEntries)
    ensures TrimmedAcks(entries, now, trimmed)
  {
    var pairs := SortPairs(entries);
    PrefixIsLatest(entries, pairs);
    trimmed := map[];
    ghost var n := if |pairs| < PEER_ACK_PER_PEER then |pairs| else PEER_ACK_PER_PEER;
    assert trimmed == KeptUpTo(entries, pairs, 0, now);
    for idx := 0 to |pairs|
      invariant trimmed == KeptUpTo(entries, pairs, if idx < n then idx else n, now)
    {
      hide KeptUpTo, AckExpired, PairsOf, SortedPairs, KeysUpTo;
      KeptStep(entries, pairs, idx, now);
      if idx >= PEER_ACK_PER_PEER || AckExpired(pairs[idx].1, now) {
        continue;
      }
      trimmed := trimmed[pairs[idx].0 := pairs[idx].1];
    }
  }

  method TrimAllPeers(acks: PeerAcks, now: Time) returns (out: PeerAcks)
    ensures CompactedAcks(acks, now, out)
  {
    out := acks;
    var peers := acks.Keys;
    while peers != {}
      invariant peers <= out.Keys <= acks.Keys
      invariant forall peer <- peers :: out[peer] == acks[peer]
      invariant forall peer <- out :: peer !in peers ==> out[peer] != map[] && TrimmedAcks(acks[peer], now, out[peer])
      invariant forall peer <- acks :: peer !in out ==> TrimmedAcks(acks[peer], now, map[])
      decreases peers
    {
      var peer :| peer in peers;
      var trimmed := TrimPeer(out[peer], now);
      peers := peers - {peer};
      if |trimmed| == 0 {
        assert trimmed == map[];
        out := out - {peer};
      } else {
        out := out[peer := trimmed];
      }
    }
  }

  method CompactPendingTable(pending: PendingTable, now: Time) returns (out: PendingTable)
    ensures out == CompactPending(pending, now)
  {
    out := pending;
    var keys := pending.Keys;
    while keys != {}
      invariant keys <= out.Keys <= pending.Keys
      invariant forall key <- keys :: out[key] == pending[key]
      invariant forall key <- pending :: key !in keys ==> (key in out <==> KeepsPending(pending[key], now))
      invariant forall key <- out :: key !in keys ==> out[key] == CompactItem(pending[key], now)
      decreases keys
    {
      var key :| key in keys;
      keys := keys - {key};
      var item := out[key];
      if item.status.Blank? || item.status.Pending? {
        if OlderThan(item.updatedAt, now, PENDING_MAX_AGE) || item.retries >= PENDING_MAX_RETRY {
          out := out[key := item.(status := Expired, updatedAt := now)];
        }
        continue;
      }
      if OlderThan(item.updatedAt, now, RESOLVED_TTL) {
        out := out - {key};
      }
    }
  }

  method CompactConflictTable(conflicts: Conflicts, now: Time) returns (out: Conflicts)
    ensures out == CompactConflicts(conflicts, now)
  {
    out := conflicts;
    var keys := conflicts.Keys;
    while keys != {}
      invariant keys <= out.Keys <= conflicts.Keys
      invariant forall key <- out :: out[key] == conflicts[key]
      invariant forall key <- conflicts :: key !in keys ==> (key in out <==> !AgedOut(conflicts[key], now))
      decreases keys
    {
      var key :| key in keys;
      keys := keys - {key};
      var item := out[key];
      if item.resolution == "" {
        continue;
      }
      var resolvedAt := if item.resolvedAt == 0 then item.updatedAt else item.resolvedAt;
      if resolvedAt == 0 || resolvedAt > now - CONFLICT_RESOLVED_TTL {
        continue;
      }
      out := out - {key};
    }
  }

  /** compactTeamSyncState. */
  method Compact(s: State, now: Time) returns (t: State)
    ensures Compacted(s, now, t)
  {
    var acks := TrimAllPeers(s.peerAcks, now);
    var pending := CompactPendingTable(s.pending, now);
    var conflicts := CompactConflictTable(s.conflicts, now);
    t := s.(peerAcks := acks, pending := pending, conflicts := conflicts);
  }

  method MergePeerLoop(dst: PeerEntries, src: PeerEntries) returns (out: PeerEntries)
    ensures out == MergePeer(dst, src)
  {
    out := dst;
    var keys := src.Keys;
    while keys != {}
      invariant keys <= src.Keys
      invariant out == MergePeer(dst, src - keys)
      decreases keys
    {
      var key :| key in keys;
      keys := keys - {key};
      if key !in out || src[key].updatedAt > out[key].updatedAt {
        out := out[key := src[key]];
      }
    }
    assert src - {} == src;
  }

  method MergeAcksLoop(dst: PeerAcks, src: PeerAcks) returns (out: PeerAcks)
    ensures out == MergeAcks(dst, src)
  {
    out := dst;
    var peers := src.Keys;
    forall peer | peer in dst && peer !in src
      ensures dst[peer] == MergePeer(EntriesOf(dst, peer), EntriesOf(src, peer))
    {
      assert MergePeer(dst[peer], map[]) == dst[peer];
    }
    while peers != {}
      invariant peers <= src.Keys
      invariant out.Keys == dst.Keys + (src.Keys - peers)
      invariant forall peer <- peers :: peer in out ==> peer in dst && out[peer] == dst[peer]
      invariant forall peer <- out :: peer !in peers ==> out[peer] == MergePeer(EntriesOf(dst, peer), EntriesOf(src, peer))
      decreases peers
    {
      hide MergePeer;
      var peer :| peer in peers;
      peers := peers - {peer};
      var merged := MergePeerLoop(EntriesOf(out, peer), src[peer]);
      out := out[peer := merged];
    }
  }

  method MergeConflictsLoop(dst: Conflicts, src: Conflicts) returns (out: Conflicts)
    ensures out == MergeConflicts(dst, src)
  {
    out := dst;
    var keys := src.Keys;
    while keys != {}
      invariant keys <= src.Keys
      invariant out == MergeConflicts(dst, src - keys)
      decreases keys
    {
      var key :| key in keys;
      keys := keys - {key};
      if key !in out {
        out := out[key := src[key]];
        continue;
      }
      if src[key].updatedAt > out[key].updatedAt {
        out := out[key := src[key]];
        continue;
      }
      if !Resolved(out[key]) && Resolved(src[key]) {
        out := out[key := src[key]];
      }
    }
    assert src - {} == src;
  }

  // ---------- The runtime ----------

  /** What a write meets: its own clock, whether the directory is there, whether the file can be read, and whether it can be
      written. */
  datatype Io = Io(clock: Time, ready: bool, loaded: bool, written: bool)

  /** writeTeamSyncState works on the maps of the state in memory, so memory takes over the merge and the second compaction,
      even when the file is not written in the end. */
  ghost predicate AfterWrite(compacted: State, io: Io, disk: State, state': State, disk': State) {
    if !io.ready then state' == compacted && disk' == disk
    else Written(disk, compacted, io.loaded, io.clock, state') && disk' == if io.written then state' else disk
  }

  /** What a persist call leaves behind in memory and in the file. */
  ghost predicate Committed(next: State, now: Time, io: Io, disk: State, state': State, disk': State) {
    exists compacted :: Compacted(next, now, compacted) && AfterWrite(compacted, io, disk, state', disk')
  }

  /** A resolution made in the file is in memory after the next persist call that gets to read the file, whether or not
      the write succeeds, unless it has aged out. */
  lemma ResolutionReachesMemory(next: State, now: Time, io: Io, disk: State, state': State, disk': State, key: string)
    requires Committed(next, now, io, disk, state', disk') && io.ready && io.loaded && HoldsResolution(disk, key)
    ensures HoldsResolution(state', key) || AgedOut(disk.conflicts[key], io.clock)
         || (key in next.conflicts && AgedOut(next.conflicts[key], io.clock))
  {
    var compacted :| Compacted(next, now, compacted) && AfterWrite(compacted, io, disk, state', disk');
    WriteKeepsResolution(disk, compacted, true, io.clock, state', key);
  }

  /** The pending table after a persist call: compacted once, or twice when the write got that far. */
  lemma PendingOfCommit(next: State, now: Time, io: Io, disk: State, state': State, disk': State)
    requires Committed(next, now, io, disk, state', disk')
    ensures state'.pending == if io.ready then CompactPending(CompactPending(next.pending, now), io.clock)
                              else CompactPending(next.pending, now)
    ensures disk' == if io.ready && io.written then state' else disk
  {
    hide CompactedAcks, CompactPending, CompactConflicts, MergeAcks, MergeConflicts;
    var compacted :| Compacted(next, now, compacted) && AfterWrite(compacted, io, disk, state', disk');
  }

  /** A persist call keeps the checkpoints of the update it commits, in memory and in a file it writes: nothing compacts them
      and the merge takes none from the file. */
  lemma CheckpointsOfCommit(next: State, now: Time, io: Io, disk: State, state': State, disk': State)
    requires Committed(next, now, io, disk, state', disk')
    ensures state'.checkpoints == next.checkpoints && state'.applied == next.applied
    ensures io.ready && io.written ==> disk'.checkpoints == next.checkpoints && disk'.applied == next.applied
    ensures !(io.ready && io.written) ==> disk' == disk
  {
    hide CompactedAcks, CompactPending, CompactConflicts, MergeAcks, MergeConflicts;
    var compacted :| Compacted(next, now, compacted) && AfterWrite(compacted, io, disk, state', disk');
  }

  /** The answer of shouldRetryPending before any timing question. */
  predicate MayRetry(s: State, key: string, now: Time) {
    key in s.pending && CountsAsPending(s.pending[key]) && !Overdue(s.pending[key], now)
  }

  predicate RetryDue(item: PendingItem, now: Time) {
    item.updatedAt == 0 || now > item.updatedAt + ACK_RETRY_AFTER
  }

  /** An entry is retried exactly while it is pending, has been retried less than eight times, and was last touched more than 15
      seconds and at most six hours ago, or never. */
  lemma RetryRule(s: State, key: string, now: Time)
    ensures (MayRetry(s, key, now) && RetryDue(s.pending[key], now)) <==>
              && key in s.pending && s.pending[key].status in {Blank, Pending} && s.pending[key].retries < 8
              && (s.pending[key].updatedAt == 0 || s.pending[key].updatedAt + 15 < now <= s.pending[key].updatedAt + 6 * 3600)
  {}

  /** teamPubSubRuntime: the state under the mutex and the file it is written to. A method reads its clock once for its stamps
      and its compaction; the write reads its own. */
  class Runtime {
    const nodeID: string
    var state: State
    var disk: State
    var seen: map<string, Time>

    constructor (nodeID: string, disk: State)
      ensures this.nodeID == nodeID && state == disk && this.disk == disk && seen == map[]
    {
      this.nodeID := nodeID;
      state := disk;
      this.disk := disk;
      seen := map[];
    }

    /** The end of every persist call: compactTeamSyncState, then writeTeamSyncState. */
    method Commit(next: State, now: Time, io: Io)
      modifies this`state, this`disk
      ensures Committed(next, now, io, old(disk), state, disk)
      ensures state.checkpoints == next.checkpoints && state.applied == next.applied
    {
      state := Compact(next, now);
      ghost var compacted := state;
      if io.ready {
        if io.loaded {
          var acks := MergeAcksLoop(state.peerAcks, disk.peerAcks);
          var conflicts := MergeConflictsLoop(state.conflicts, disk.conflicts);
          state := state.(peerAcks := acks, conflicts := conflicts);
        }
        state := Compact(state, io.clock);
        if io.written {
          disk := state;
        }
      }
      assert AfterWrite(compacted, io, old(disk), state, disk);
      CheckpointsOfCommit(next, now, io, old(disk), state, disk);
    }

    method PersistCheckpoint(stateKey: string, version: Time, key: string, applied: bool, now: Time, io: Io)
      modifies this`state, this`disk
      ensures if stateKey == "" || version == 0 then state == old(state) && disk == old(disk)
              else Committed(PutCheckpoint(old(state), stateKey, Checkpoint(version, key), applied), now, io, old(disk), state, disk)
      ensures stateKey != "" && version != 0 ==>
                && state.checkpoints == (if applied then old(state).checkpoints
                                         else old(state).checkpoints[stateKey := Checkpoint(version, key)])
                && state.applied == (if applied then old(state).applied[stateKey := Checkpoint(version, key)]
                                     else old(state).applied)
                && (io.ready && io.written ==> disk.checkpoints == state.checkpoints && disk.applied == state.applied)
    {
      if stateKey == "" || version == 0 {
        return;
      }
      var next := PutCheckpoint(state, stateKey, Checkpoint(version, key), applied);
      Commit(next, now, io);
      CheckpointsOfCommit(next, now, io, old(disk), state, disk);
    }

    method PersistPending(key: string, stateKey: string, version: Time, now: Time, io: Io)
      modifies this`state, this`disk
      ensures if key == "" || version == 0 then state == old(state) && disk == old(disk)
              else Committed(PutPending(old(state), key, stateKey, version, now), now, io, old(disk), state, disk)
    {
      if key == "" || version == 0 {
        return;
      }
      var pending := state.pending;
      var keys := pending.Keys;
      while keys != {}
        invariant keys <= pending.Keys && pending.Keys == state.pending.Keys
        invariant state == old(state) && disk == old(disk)
        invariant forall k <- pending :: pending[k] ==
                    if k in keys || k == key then state.pending[k] else SupersedeItem(state.pending[k], stateKey, now)
        decreases keys
      {
        var k :| k in keys;
        keys := keys - {k};
        if k == key {
          continue;
        }
        var item := pending[k];
        if item.stateKey == stateKey && item.status.Pending? {
          pending := pending[k := item.(status := Superseded, updatedAt := now)];
        }
      }
      var retries := if key in pending && pending[key].retries > 0 then pending[key].retries else 0;
      pending := pending[key := PendingItem(version, stateKey, Pending, now, retries)];
      assert pending == PutPending(state, key, stateKey, version, now).pending;
      Commit(state.(pending := pending), now, io);
    }

    method PersistPeerAck(peer: string, key: string, appliedAt: Time, now: Time, io: Io)
      modifies this`state, this`disk
      ensures if peer == "" || key == "" then state == old(state) && disk == old(disk)
              else Committed(PutPeerAck(old(state), peer, key, appliedAt, now), now, io, old(disk), state, disk)
    {
      if peer == "" || key == "" {
        return;
      }
      var entries := EntriesOf(state.peerAcks, peer);
      var next := state.(peerAcks := state.peerAcks[peer := entries[key := PeerAck(appliedAt, now)]]);
      Commit(next, now, io);
    }

    method SetPendingStatus(key: string, status: Status, now: Time, io: Io)
      modifies this`state, this`disk
      ensures if key !in old(state).pending then state == old(state) && disk == old(disk)
              else Committed(SetStatus(old(state), key, status, now), now, io, old(disk), state, disk)
    {
      if key !in state.pending {
        return;
      }
      var item := state.pending[key].(status := status, updatedAt := now);
      Commit(state.(pending := state.pending[key := item]), now, io);
    }

    method BumpPendingRetry(key: string, now: Time, io: Io)
      modifies this`state, this`disk
      ensures if key !in old(state).pending then state == old(state) && disk == old(disk)
              else Committed(BumpRetry(old(state), key, now), now, io, old(disk), state, disk)
    {
      if key !in state.pending {
        return;
      }
      var item := state.pending[key];
      item := item.(status := Pending, retries := item.retries + 1, updatedAt := now);
      Commit(state.(pending := state.pending[key := item]), now, io);
    }

    /** shouldRetryPending: an overdue entry is marked expired on the way. */
    method ShouldRetryPending(key: string, now: Time, io: Io) returns (retry: bool)
      modifies this`state, this`disk
      ensures retry <==> MayRetry(old(state), key, now) && RetryDue(old(state).pending[key], now)
      ensures if key in old(state).pending && CountsAsPending(old(state).pending[key]) && Overdue(old(state).pending[key], now)
              then Committed(SetStatus(old(state), key, Expired, now), now, io, old(disk), state, disk)
              else state == old(state) && disk == old(disk)
    {
      if key !in state.pending {
        return false;
      }
      var item := state.pending[key];
      if !item.status.Blank? && !item.status.Pending? {
        return false;
      }
      if OlderThan(item.updatedAt, now, PENDING_MAX_AGE) || item.retries >= PENDING_MAX_RETRY {
        SetPendingStatus(key, Expired, now, io);
        return false;
      }
      if item.updatedAt == 0 {
        return true;
      }
      return now > item.updatedAt + ACK_RETRY_AFTER;
    }

    method RememberSeen(key: string, now: Time)
      modifies this`seen
      ensures seen == if key == "" then old(seen) else old(seen)[key := now]
    {
      if key != "" {
        seen := seen[key := now];
      }
    }

    /** pruneSeen: forget keys not seen for maxAge. */
    method PruneSeen(maxAge: nat, now: Time)
      modifies this`seen
      ensures seen == if maxAge == 0 then old(seen)
                      else map key | key in old(seen) && !(old(seen)[key] < now - maxAge) :: old(seen)[key]
    {
      if maxAge == 0 {
        return;
      }
      var keys := seen.Keys;
      while keys != {}
        invariant keys <= seen.Keys <= old(seen).Keys
        invariant forall key <- seen :: seen[key] == old(seen)[key]
        invariant forall key <- old(seen) :: key !in keys ==> (key in seen <==> !(old(seen)[key] < now - maxAge))
        decreases keys
      {
        var key :| key in keys;
        keys := keys - {key};
        if seen[key] < now - maxAge {
          seen := seen - {key};
        }
      }
    }

    /** The guard of handleAck: addressed here, from another node, not seen, and newer than the checkpoint.
        A stale ack is remembered as seen; an accepted one is too, before it is persisted. */
    method AcceptAck(ack: Ack, now: Time) returns (accepted: bool)
      modifies this`seen
      ensures accepted <==> AckAcceptable(old(state), old(seen), nodeID, ack)
      ensures accepted ==> seen == old(seen)[AckKey(ack) := now]
      ensures old(seen).Keys <= seen.Keys <= old(seen).Keys + {AckKey(ack)}
    {
      if ack.ackedKey == "" || (ack.target != "" && ack.target != nodeID) || ack.ackedBy == "" || ack.ackedBy == nodeID {
        return false;
      }
      var key := AckKey(ack);
      if key in seen {
        return false;
      }
      RememberSeen(key, now);
      var stateKey := AckStateKey(ack);
      return stateKey !in state.checkpoints || VersionAfter(ack.appliedAt, state.checkpoints[stateKey].versionAt);
    }
  }

  /** The ack part of a Team sync message. */
  datatype Ack = Ack(team: string, ackedKey: string, ackedBy: string, target: string, appliedAt: Time)

  function AckKey(ack: Ack): string {
    "ack:" + ack.ackedKey + ":" + ack.ackedBy
  }

  function AckStateKey(ack: Ack): string {
    "ack:" + ack.team + ":" + ack.ackedKey + ":" + ack.ackedBy
  }

  predicate AckAcceptable(s: State, seen: map<string, Time>, nodeID: string, ack: Ack) {
    && ack.ackedKey != "" && (ack.target == "" || ack.target == nodeID)
    && ack.ackedBy != "" && ack.ackedBy != nodeID
    && AckKey(ack) !in seen
    && (AckStateKey(ack) in s.checkpoints ==> VersionAfter(ack.appliedAt, s.checkpoints[AckStateKey(ack)].versionAt))
  }
}
