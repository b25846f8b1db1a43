/** That the Team sync protocol gets somewhere: every persist call has an outcome, and an item that is published and applied
    ends up acked (internal/aip2p/team_sync.go:817-911, 1358-1395, 1644-1732). */
module TeamSyncProgress {
  import opened Options
  import opened TeamSyncHistory
  import opened TeamSyncNetwork
  import opened TeamSyncState

  // ---------- Persist calls have an outcome ----------

  lemma NewestOf(entries: PeerEntries, rest: set<string>) returns (newest: string)
    requires rest != {} && rest <= entries.Keys
    ensures newest in rest && forall k <- rest :: entries[k].updatedAt <= entries[newest].updatedAt
    decreases rest
  {
    var key :| key in rest;
    if rest == {key} {
      newest := key;
    } else {
      var other := NewestOf(entries, rest - {key});
      newest := if entries[other].updatedAt < entries[key].updatedAt then key else other;
    }
  }

  lemma {:induction false} LatestOfSize(entries: PeerEntries, size: nat) returns (top: set<string>)
    requires size <= |entries|
    ensures top <= entries.Keys && |top| == size
    ensures forall a, b :: a in top && b in entries && b !in top ==> entries[b].updatedAt <= entries[a].updatedAt
  {
    if size == 0 {
      top := {};
    } else {
      var less := LatestOfSize(entries, size - 1);
      var rest := entries.Keys - less;
      assert |entries.Keys| == |entries|;
      assert entries.Keys == less + rest;
      var newest := NewestOf(entries, rest);
      top := less + {newest};
    }
  }

  /** Whatever acks a peer has, and however many share a stamp, trimming them has an outcome. */
  lemma TrimmingHappens(entries: PeerEntries, now: Time) returns (out: PeerEntries)
    ensures TrimmedAcks(entries, now, out)
  {
    var top := LatestOfSize(entries, if |entries| < PEER_ACK_PER_PEER then |entries| else PEER_ACK_PER_PEER);
    out := map key | key in top && !AckExpired(entries[key], now) :: entries[key];
    assert Latest(entries, top);
  }

  ghost function Trimmed(entries: PeerEntries, now: Time): (out: PeerEntries)
    ensures TrimmedAcks(entries, now, out)
  {
    TrimmingIsPossible(entries, now);
    var out :| TrimmedAcks(entries, now, out);
    out
  }

  lemma TrimmingIsPossible(entries: PeerEntries, now: Time)
    ensures exists out :: TrimmedAcks(entries, now, out)
  {
    var out := TrimmingHappens(entries, now);
  }

  lemma CompactingHappens(s: State, now: Time) returns (t: State)
    ensures Compacted(s, now, t)
  {
    hide TrimmedAcks, CompactPending, CompactConflicts;
    var acks := map peer | peer in s.peerAcks && Trimmed(s.peerAcks[peer], now) != map[] :: Trimmed(s.peerAcks[peer], now);
    t := s.(pending := CompactPending(s.pending, now), conflicts := CompactConflicts(s.conflicts, now), peerAcks := acks);
  }

  /** For every node, update, clock and fate of the file: the persist call has an outcome. */
  lemma PersistHappens(n: Node, next: State, now: Time, io: Io) returns (n': Node)
    ensures Persisted(n, next, now, io, n')
  {
    hide Compacted, Merge;
    var compacted := CompactingHappens(next, now);
    var state', disk' := compacted, n.disk;
    if io.ready {
      state' := CompactingHappens(if io.loaded then Merge(n.disk, compacted) else compacted, io.clock);
      disk' := if io.written then state' else n.disk;
    }
    assert AfterWrite(compacted, io, n.disk, state', disk');
    n' := n.(mem := state', disk := disk', lastOnDisk := if io.ready && io.written then n.last else n.lastOnDisk);
  }

  // ---------- One item, from publishing to its ack ----------

  function Good(now: Time): Io {
    Io(now, true, true, true)
  }

  /** Node a publishes an item, b applies it, and its ack comes back; every file can be read and written. */
  function Exchange(a: string, b: string, item: Item, now: Time): seq<Event> {
    var ack := AckFor(b, item, now).ack;
    [Send(a, item, false, now), RecordPending(a, now, Good(now)), Apply(b, item, true, now), Accept(a, ack, now),
     RecordPeerAck(a, ack, now, Good(now)),
     RecordCheckpoint(a, AckStateKey(ack), Checkpoint(now, item.key), false, now, Good(now)),
     ClearPending(a, ack, now, Good(now))]
  }

  /** The exchange can start: the publisher is idle and has not seen the item, its entry is not worn out, and its ack would be
      accepted. */
  predicate Unpublished(s: System, a: string, b: string, item: Item, now: Time) {
    && a in s.nodes && b in s.nodes && a != b && b != "" && item.source == a != "" && item.key != "" && item.version != 0
    && now != 0 && s.nodes[a].publishing.Idle? && item.key !in s.nodes[a].seen
    && (item.key in s.nodes[a].mem.pending ==> s.nodes[a].mem.pending[item.key].retries < PENDING_MAX_RETRY)
    && AckAcceptable(s.nodes[a].mem, s.nodes[a].seen, a, AckFor(b, item, now).ack)
    && item.key != AckKey(AckFor(b, item, now).ack)
  }

  /** A persist call with a working file writes the entry of a key touched in the same second as it is, and keeps the
      checkpoints it was given. */
  lemma EntryStays(n: Node, next: State, now: Time, n': Node, key: string)
    requires Persisted(n, next, now, Good(now), n') && key in next.pending
    requires next.pending[key].updatedAt == now && next.pending[key].retries < PENDING_MAX_RETRY
    ensures n'.mem == n'.disk && key in n'.mem.pending && n'.mem.pending[key] == next.pending[key]
    ensures n'.mem.checkpoints == next.checkpoints
  {
    hide Committed, CompactPending;
    PendingOfCommit(next, now, Good(now), n.disk, n'.mem, n'.disk);
    CheckpointsOfCommit(next, now, Good(now), n.disk, n'.mem, n'.disk);
    PendingCompactsExactly(next.pending, now, key);
    PendingCompactsExactly(CompactPending(next.pending, now), now, key);
  }

  /** The publisher's own steps, one after the other. */
  lemma PublisherSteps(n: Node, a: string, b: string, item: Item, now: Time) returns (nodes: seq<Node>)
    requires a != b && b != "" && item.source == a != "" && item.key != "" && item.version != 0 && now != 0
    requires n.publishing.Idle? && item.key !in n.seen
    requires item.key in n.mem.pending ==> n.mem.pending[item.key].retries < PENDING_MAX_RETRY
    requires AckAcceptable(n.mem, n.seen, a, AckFor(b, item, now).ack) && item.key != AckKey(AckFor(b, item, now).ack)
    ensures var ack := AckFor(b, item, now).ack;
            && |nodes| == 6 && nodes[0] == n.(publishing := Sent(item, false), seen := n.seen[item.key := now])
            && Persisted(nodes[0].(publishing := Idle, last := n.last[item.stateKey := item.key]),
                         PutPending(n.mem, item.key, item.stateKey, item.version, now), now, Good(now), nodes[1])
            && item.key in nodes[1].mem.pending && nodes[1].mem.pending[item.key].status == Pending && nodes[1].disk == nodes[1].mem
            && AckAcceptable(nodes[1].mem, nodes[1].seen, a, ack)
            && nodes[2] == nodes[1].(seen := nodes[1].seen[AckKey(ack) := now], accepted := nodes[1].accepted + {ack})
            && Persisted(nodes[2], PutPeerAck(nodes[2].mem, b, item.key, now, now), now, Good(now), nodes[3])
            && Persisted(nodes[3], PutCheckpoint(nodes[3].mem, AckStateKey(ack), Checkpoint(now, item.key), false), now,
                         Good(now), nodes[4])
            && item.key in nodes[4].mem.pending
            && Persisted(nodes[4], SetStatus(nodes[4].mem, item.key, Acked, now), now, Good(now), nodes[5])
            && item.key in nodes[5].mem.pending && nodes[5].mem.pending[item.key].status == Acked
            && nodes[5].disk == nodes[5].mem
            && CheckpointAt(nodes[5].mem, false, AckStateKey(ack)) == Some(Checkpoint(now, item.key))
  {
    hide Persisted, AckStateKey, AckKey;
    var ack, key, io := AckFor(b, item, now).ack, item.key, Good(now);
    var sent := n.(publishing := Sent(item, false), seen := n.seen[key := now]);
    var idle := sent.(publishing := Idle, last := n.last[item.stateKey := key]);
    var put := PutPending(n.mem, key, item.stateKey, item.version, now);
    var recorded := PersistHappens(idle, put, now, io);
    EntryStays(idle, put, now, recorded, key);
    OnlyFiles(idle, put, now, recorded);
    var accepted := recorded.(seen := recorded.seen[AckKey(ack) := now], accepted := recorded.accepted + {ack});
    var acked := PutPeerAck(accepted.mem, b, key, now, now);
    var stored := PersistHappens(accepted, acked, now, io);
    EntryStays(accepted, acked, now, stored, key);
    OnlyFiles(accepted, acked, now, stored);
    var marked := PutCheckpoint(stored.mem, AckStateKey(ack), Checkpoint(now, key), false);
    var noted := PersistHappens(stored, marked, now, io);
    EntryStays(stored, marked, now, noted, key);
    OnlyFiles(stored, marked, now, noted);
    var cleared := SetStatus(noted.mem, key, Acked, now);
    var settled := PersistHappens(noted, cleared, now, io);
    EntryStays(noted, cleared, now, settled, key);
    nodes := [sent, recorded, accepted, stored, noted, settled];
  }

  lemma OnlyFiles(n: Node, next: State, now: Time, n': Node)
    requires Persisted(n, next, now, Good(now), n')
    ensures n'.seen == n.seen && n'.accepted == n.accepted && n'.publishing == n.publishing
  {
    hide Committed;
  }

  /** From every state in which node a has not published the item there is a run of the protocol in which a publishes it, b
      applies it, and a holds it as acked in memory and file, with the checkpoint that refuses the same ack from then on. */
  lemma ExchangeSettles(s: System, a: string, b: string, item: Item, now: Time) returns (states: seq<System>)
    requires Unpublished(s, a, b, item, now)
    ensures |states| == 8 && states[0] == s
    ensures forall i :: 0 <= i < 7 ==> Step(states[i], Exchange(a, b, item, now)[i], states[i + 1])
    ensures var end, ack := states[7], AckFor(b, item, now).ack;
            && (a, item.key) in end.published && (b, a, item.key) in end.applied && AckMsg(ack) in end.net
            && a in end.nodes && item.key in end.nodes[a].mem.pending && item.key in end.nodes[a].disk.pending
            && a in states[2].nodes && item.key in states[2].nodes[a].mem.pending
            && states[2].nodes[a].mem.pending[item.key].status == Pending
            && end.nodes[a].mem.pending[item.key].status == Acked && end.nodes[a].disk.pending[item.key].status == Acked
            && !AckAcceptable(end.nodes[a].mem, map[], a, ack) && !AckAcceptable(end.nodes[a].disk, map[], a, ack)
  {
    hide AckStateKey, AckKey, Committed, PutPending, PutPeerAck, PutCheckpoint, SetStatus, Step, AckAcceptable;
    var n, ack := s.nodes[a], AckFor(b, item, now).ack;
    var nodes := PublisherSteps(n, a, b, item, now);
    var sent := System(s.nodes[a := nodes[0]], s.net + {ItemMsg(item)}, s.published + {(a, item.key)}, s.applied);
    var recorded := sent.(nodes := sent.nodes[a := nodes[1]]);
    var applied := System(recorded.nodes, recorded.net + {AckMsg(ack)}, recorded.published, recorded.applied + {(b, a, item.key)});
    var accepted := applied.(nodes := applied.nodes[a := nodes[2]]);
    var stored := accepted.(nodes := accepted.nodes[a := nodes[3]]);
    var noted := stored.(nodes := stored.nodes[a := nodes[4]]);
    var settled := noted.(nodes := noted.nodes[a := nodes[5]]);
    states := [s, sent, recorded, applied, accepted, stored, noted, settled];
    var events := Exchange(a, b, item, now);
    Sending(s, a, item, now, sent);
    Recording(sent, a, item, now, recorded);
    Applying(recorded, b, item, now, applied);
    Accepting(applied, a, ack, now, accepted);
    Storing(accepted, a, ack, now, stored);
    Noting(stored, a, ack, item.key, now, noted);
    Clearing(noted, a, ack, now, settled);
    NotedAckIsRefused(nodes[5].mem, a, ack);
  }

  lemma NotedAckIsRefused(state: State, a: string, ack: Ack)
    requires CheckpointAt(state, false, AckStateKey(ack)) == Some(Checkpoint(ack.appliedAt, ack.ackedKey))
    ensures !AckAcceptable(state, map[], a, ack)
  {
    hide AckStateKey;
    VersionsAreOrdered(ack.appliedAt, ack.appliedAt);
  }

  lemma Applying(s: System, b: string, item: Item, now: Time, s': System)
    requires b in s.nodes && ItemMsg(item) in s.net && item.key != "" && item.source != ""
    requires s'.nodes == s.nodes && s'.published == s.published && s'.applied == s.applied + {(b, item.source, item.key)}
    requires s'.net == s.net + {AckFor(b, item, now)}
    ensures Step(s, Apply(b, item, true, now), s')
  {
    assert s'.nodes[b] == s.nodes[b].(seen := s'.nodes[b].seen);
    assert s.nodes == s.nodes[b := s'.nodes[b]];
  }

  lemma Sending(s: System, a: string, item: Item, now: Time, s': System)
    requires a in s.nodes && item.source == a && s.nodes[a].publishing.Idle? && item.key !in s.nodes[a].seen
    requires s'.nodes == s.nodes[a := s.nodes[a].(publishing := Sent(item, false), seen := s.nodes[a].seen[item.key := now])]
    requires s'.net == s.net + {ItemMsg(item)} && s'.published == s.published + {(a, item.key)} && s'.applied == s.applied
    ensures Step(s, Send(a, item, false, now), s')
  {}

  lemma Recording(s: System, a: string, item: Item, now: Time, s': System)
    requires a in s.nodes && a in s'.nodes && s' == s.(nodes := s.nodes[a := s'.nodes[a]])
    requires s.nodes[a].publishing == Sent(item, false) && item.key != "" && item.version != 0
    requires Persisted(s.nodes[a].(publishing := Idle, last := s.nodes[a].last[item.stateKey := item.key]),
                       PutPending(s.nodes[a].mem, item.key, item.stateKey, item.version, now), now, Good(now), s'.nodes[a])
    ensures Step(s, RecordPending(a, now, Good(now)), s')
  {}

  lemma Accepting(s: System, a: string, ack: Ack, now: Time, s': System)
    requires a in s.nodes && AckMsg(ack) in s.net && AckAcceptable(s.nodes[a].mem, s.nodes[a].seen, a, ack)
    requires s' == s.(nodes := s.nodes[a := s.nodes[a].(seen := s.nodes[a].seen[AckKey(ack) := now],
                                                        accepted := s.nodes[a].accepted + {ack})])
    ensures Step(s, Accept(a, ack, now), s')
  {}

  lemma Storing(s: System, a: string, ack: Ack, now: Time, s': System)
    requires a in s.nodes && a in s'.nodes && s' == s.(nodes := s.nodes[a := s'.nodes[a]]) && ack in s.nodes[a].accepted
    requires Persisted(s.nodes[a], PutPeerAck(s.nodes[a].mem, ack.ackedBy, ack.ackedKey, ack.appliedAt, now), now, Good(now),
                       s'.nodes[a])
    ensures Step(s, RecordPeerAck(a, ack, now, Good(now)), s')
  {}

  lemma Noting(s: System, a: string, ack: Ack, key: string, now: Time, s': System)
    requires a in s.nodes && a in s'.nodes && s' == s.(nodes := s.nodes[a := s'.nodes[a]])
    requires Persisted(s.nodes[a], PutCheckpoint(s.nodes[a].mem, AckStateKey(ack), Checkpoint(now, key), false), now, Good(now),
                       s'.nodes[a])
    ensures Step(s, RecordCheckpoint(a, AckStateKey(ack), Checkpoint(now, key), false, now, Good(now)), s')
  {}

  lemma Clearing(s: System, a: string, ack: Ack, now: Time, s': System)
    requires a in s.nodes && a in s'.nodes && s' == s.(nodes := s.nodes[a := s'.nodes[a]]) && ack in s.nodes[a].accepted
    requires ack.ackedKey in s.nodes[a].mem.pending
    requires Persisted(s.nodes[a], SetStatus(s.nodes[a].mem, ack.ackedKey, Acked, now), now, Good(now), s'.nodes[a])
    ensures Step(s, ClearPending(a, ack, now, Good(now)), s')
  {}
}
