/** What the runs of a Team sync network keep of what a node recorded: its checkpoints, through writes, merges and restarts,
    and the count of retries (internal/aip2p/team_sync.go). */
module TeamSyncHistory {
  import opened Options
  import opened TeamSyncNetwork
  import opened TeamSyncState

  // ---------- Checkpoints ----------

  /** The checkpoint a state holds under a state key, among the published or the applied ones. */
  function CheckpointAt(s: State, isApplied: bool, stateKey: string): Option<Checkpoint> {
    var table := if isApplied then s.applied else s.checkpoints;
    if stateKey in table then Some(table[stateKey]) else None
  }

  /** The event records a checkpoint of the node under the state key. */
  predicate Records(e: Event, a: string, isApplied: bool, stateKey: string) {
    e.RecordCheckpoint? && e.a == a && e.isApplied == isApplied && e.stateKey == stateKey
  }

  predicate Restarts(e: Event, a: string) {
    e.Restart? && e.a == a
  }

  /** The last checkpoint that events i to j record, or the one before them. */
  function LastRecorded(events: seq<Event>, i: nat, j: nat, a: string, isApplied: bool, stateKey: string,
                        before: Option<Checkpoint>): Option<Checkpoint>
    requires i <= j <= |events|
  {
    if i == j then before
    else if Records(events[j - 1], a, isApplied, stateKey) then Some(events[j - 1].checkpoint)
    else LastRecorded(events, i, j - 1, a, isApplied, stateKey, before)
  }

  /** One step of any node changes a checkpoint in memory only by recording it or by a restart, and one in the file only by
      writing what memory holds. */
  lemma StepKeepsCheckpoints(s: System, e: Event, s': System, a: string, isApplied: bool, stateKey: string)
    requires Step(s, e, s') && a in s.nodes
    ensures a in s'.nodes
    ensures var n, n' := s.nodes[a], s'.nodes[a];
            && CheckpointAt(n'.mem, isApplied, stateKey)
               == (if Records(e, a, isApplied, stateKey) then Some(e.checkpoint)
                   else if Restarts(e, a) then CheckpointAt(n.disk, isApplied, stateKey)
                   else CheckpointAt(n.mem, isApplied, stateKey))
            && (CheckpointAt(n'.disk, isApplied, stateKey) == CheckpointAt(n.disk, isApplied, stateKey)
                || CheckpointAt(n'.disk, isApplied, stateKey) == CheckpointAt(n'.mem, isApplied, stateKey))
  {
    hide Committed, Written, SharedStep;
    if Actor(e) == a {
      var n, n' := s.nodes[a], s'.nodes[a];
      assert NodeStep(s, e, a, n, n');
      match e
      case Bump(_, now, io) =>
        if n.publishing.item.key in n.mem.pending {
          KeptByCommit(n, BumpRetry(n.mem, n.publishing.item.key, now), now, io, n');
        }
      case RecordCheckpoint(_, k, checkpoint, applied, now, io) =>
        KeptByCommit(n, PutCheckpoint(n.mem, k, checkpoint, applied), now, io, n');
      case RecordPending(_, now, io) =>
        var item := n.publishing.item;
        if item.key != "" && item.version != 0 {
          KeptByCommit(n, PutPending(n.mem, item.key, item.stateKey, item.version, now), now, io, n');
        }
      case RecordPeerAck(_, ack, now, io) =>
        KeptByCommit(n, PutPeerAck(n.mem, ack.ackedBy, ack.ackedKey, ack.appliedAt, now), now, io, n');
      case ClearPending(_, ack, now, io) =>
        if ack.ackedKey in n.mem.pending {
          KeptByCommit(n, SetStatus(n.mem, ack.ackedKey, Acked, now), now, io, n');
        }
      case Expire(_, key, now, io) =>
        KeptByCommit(n, SetStatus(n.mem, key, Expired, now), now, io, n');
      case RecordConflict(_, key, reason, now, io) =>
        KeptByCommit(n, PutConflict(n.mem, key, reason, "", 0, now), now, io, n');
      case ResolveOnDisk(_, key, resolution, now, io) =>
        if io.ready && io.written {
          ResolvingKeeps(n.disk, PutConflict(n.disk, key, n.disk.conflicts[key].reason, resolution, now, now), io, n'.disk);
        }
      case Send(_, _, _, _) =>
      case SendFailed(_, _) =>
      case Abandon(_) =>
      case Apply(_, _, _, _) =>
      case Accept(_, _, _) =>
      case Prune(_, _, _) =>
      case Restart(_) =>
    }
  }

  lemma KeptByCommit(n: Node, next: State, now: Time, io: Io, n': Node)
    requires Committed(next, now, io, n.disk, n'.mem, n'.disk)
    ensures n'.mem.checkpoints == next.checkpoints && n'.mem.applied == next.applied
    ensures if io.ready && io.written then n'.disk.checkpoints == next.checkpoints && n'.disk.applied == next.applied
            else n'.disk == n.disk
  {
    hide Committed;
    CheckpointsOfCommit(next, now, io, n.disk, n'.mem, n'.disk);
  }

  lemma ResolvingKeeps(disk: State, next: State, io: Io, disk': State)
    requires Written(disk, next, io.loaded, io.clock, disk')
    ensures disk'.checkpoints == next.checkpoints && disk'.applied == next.applied
  {
    CompactionAddsNothing(if io.loaded then Merge(disk, next) else next, io.clock, disk');
  }

  /** In every run, while a node is not restarted, its memory holds under every state key exactly the checkpoint last recorded
      there: no other step, and no file merged in, takes it away or puts an older one back. */
  lemma {:induction false} MemoryHoldsLastRecorded(states: seq<System>, events: seq<Event>, i: nat, j: nat, a: string,
                                                   isApplied: bool, stateKey: string)
    requires Run(states, events) && i <= j < |states| && a in states[i].nodes
    requires forall t :: i <= t < j ==> !Restarts(events[t], a)
    ensures a in states[j].nodes
    ensures CheckpointAt(states[j].nodes[a].mem, isApplied, stateKey)
         == LastRecorded(events, i, j, a, isApplied, stateKey, CheckpointAt(states[i].nodes[a].mem, isApplied, stateKey))
    decreases j
  {
    hide Step, Init, CheckpointAt;
    if i < j {
      MemoryHoldsLastRecorded(states, events, i, j - 1, a, isApplied, stateKey);
      StepKeepsCheckpoints(states[j - 1], events[j - 1], states[j], a, isApplied, stateKey);
    }
  }

  /** In every run a checkpoint that has reached the file is never lost, through any number of restarts: as long as none is
      recorded under its state key, memory and file keep it. */
  lemma {:induction false} WrittenCheckpointsSurvive(states: seq<System>, events: seq<Event>, i: nat, j: nat, a: string,
                                                     isApplied: bool, stateKey: string)
    requires Run(states, events) && i <= j < |states| && a in states[i].nodes
    requires var n := states[i].nodes[a];
             CheckpointAt(n.mem, isApplied, stateKey) == CheckpointAt(n.disk, isApplied, stateKey)
    requires forall t :: i <= t < j ==> !Records(events[t], a, isApplied, stateKey)
    ensures a in states[j].nodes
    ensures CheckpointAt(states[j].nodes[a].mem, isApplied, stateKey) == CheckpointAt(states[i].nodes[a].mem, isApplied, stateKey)
    ensures CheckpointAt(states[j].nodes[a].disk, isApplied, stateKey) == CheckpointAt(states[i].nodes[a].disk, isApplied, stateKey)
    decreases j
  {
    hide Step, Init, CheckpointAt;
    if i < j {
      WrittenCheckpointsSurvive(states, events, i, j - 1, a, isApplied, stateKey);
      StepKeepsCheckpoints(states[j - 1], events[j - 1], states[j], a, isApplied, stateKey);
    }
  }

  /** A state key that has a checkpoint in the file has one ever after, in memory and in the file. */
  lemma {:induction false} RecordedKeysStay(states: seq<System>, events: seq<Event>, i: nat, j: nat, a: string,
                                            isApplied: bool, stateKey: string)
    requires Run(states, events) && i <= j < |states| && a in states[i].nodes
    requires CheckpointAt(states[i].nodes[a].mem, isApplied, stateKey).Some?
    requires CheckpointAt(states[i].nodes[a].disk, isApplied, stateKey).Some?
    ensures a in states[j].nodes
    ensures CheckpointAt(states[j].nodes[a].mem, isApplied, stateKey).Some?
    ensures CheckpointAt(states[j].nodes[a].disk, isApplied, stateKey).Some?
    decreases j
  {
    hide Step, Init, CheckpointAt;
    if i < j {
      RecordedKeysStay(states, events, i, j - 1, a, isApplied, stateKey);
      StepKeepsCheckpoints(states[j - 1], events[j - 1], states[j], a, isApplied, stateKey);
    }
  }

  /** An ack whose checkpoint has reached the file is refused ever after, also once its key is no longer remembered as seen and
      after restarts, until another checkpoint is recorded for it. */
  lemma RecordedAckIsRefused(states: seq<System>, events: seq<Event>, i: nat, j: nat, a: string, ack: Ack)
    requires Run(states, events) && i <= j < |states| && a in states[i].nodes
    requires var n := states[i].nodes[a];
             && CheckpointAt(n.mem, false, AckStateKey(ack)) == CheckpointAt(n.disk, false, AckStateKey(ack))
             && CheckpointAt(n.mem, false, AckStateKey(ack)).Some?
             && ack.appliedAt <= CheckpointAt(n.mem, false, AckStateKey(ack)).value.versionAt
    requires forall t :: i <= t < j ==> !Records(events[t], a, false, AckStateKey(ack))
    ensures a in states[j].nodes && !AckAcceptable(states[j].nodes[a].mem, states[j].nodes[a].seen, a, ack)
  {
    hide Run;
    WrittenCheckpointsSurvive(states, events, i, j, a, false, AckStateKey(ack));
  }

  /** The ack a node sends for an item it applied is accepted by the node that published the item exactly if it has not seen
      it and holds no checkpoint for it that is as new; nobody else accepts it. */
  lemma HonestAckIsAccepted(n: Node, a: string, b: string, item: Item, now: Time)
    requires item.key != "" && item.source != "" && b != ""
    ensures var ack, at := AckFor(b, item, now).ack, CheckpointAt(n.mem, false, AckStateKey(AckFor(b, item, now).ack));
            AckAcceptable(n.mem, n.seen, a, ack) <==>
              && a == item.source && a != b && "ack:" + item.key + ":" + b !in n.seen
              && (at.None? || at.value.versionAt < now)
  {
    hide AckStateKey;
    var ack := AckFor(b, item, now).ack;
    if AckStateKey(ack) in n.mem.checkpoints {
      VersionsAreOrdered(now, n.mem.checkpoints[AckStateKey(ack)].versionAt);
    }
  }

  /** An ack without a key or a sender, for another node, or from the node itself is never accepted. */
  lemma StrayAckIsRefused(n: Node, a: string, ack: Ack)
    requires ack.ackedKey == "" || ack.ackedBy == "" || ack.ackedBy == a || (ack.target != "" && ack.target != a)
    ensures !AckAcceptable(n.mem, n.seen, a, ack)
  {}

  /** An accepted ack is not accepted again until its key is forgotten. */
  lemma AcceptedAckIsSeen(s: System, e: Event, s': System)
    requires Step(s, e, s') && e.Accept?
    ensures !AckAcceptable(s'.nodes[e.a].mem, s'.nodes[e.a].seen, e.a, e.ack)
  {
    assert NodeStep(s, e, e.a, s.nodes[e.a], s'.nodes[e.a]);
  }

  // ---------- Retries ----------

  /** The event counts a retry of the key at node a. */
  predicate Bumps(s: System, e: Event, a: string, key: string) {
    e.Bump? && e.a == a && a in s.nodes && s.nodes[a].publishing.Sent? && s.nodes[a].publishing.item.key == key
  }

  function BumpCount(states: seq<System>, events: seq<Event>, i: nat, j: nat, a: string, key: string): nat
    requires i <= j <= |events| <= |states|
  {
    if i == j then 0
    else BumpCount(states, events, i, j - 1, a, key) + if Bumps(states[j - 1], events[j - 1], a, key) then 1 else 0
  }

  lemma KeptEntry(next: State, now: Time, io: Io, disk: State, state': State, disk': State, key: string)
    requires Committed(next, now, io, disk, state', disk') && key in state'.pending
    ensures key in next.pending
    ensures state'.pending[key].retries == next.pending[key].retries && state'.pending[key].stateKey == next.pending[key].stateKey
    ensures state'.pending[key].versionAt == next.pending[key].versionAt
  {
    hide Committed;
    PendingOfCommit(next, now, io, disk, state', disk');
  }

  /** One step changes the retries of an entry that stays only by counting a retry of it. */
  lemma StepKeepsRetries(s: System, e: Event, s': System, a: string, key: string)
    requires Inv(s) && Step(s, e, s') && a in s.nodes && !Restarts(e, a)
    requires key in s.nodes[a].mem.pending && key in s'.nodes[a].mem.pending
    ensures s'.nodes[a].mem.pending[key].retries
         == s.nodes[a].mem.pending[key].retries + if Bumps(s, e, a, key) then 1 else 0
  {
    hide Committed, Written, SharedStep;
    if Actor(e) == a {
      var n, n' := s.nodes[a], s'.nodes[a];
      assert NodeStep(s, e, a, n, n');
      match e
      case Bump(_, now, io) =>
        if n.publishing.item.key in n.mem.pending {
          KeptEntry(BumpRetry(n.mem, n.publishing.item.key, now), now, io, n.disk, n'.mem, n'.disk, key);
        }
      case RecordCheckpoint(_, k, checkpoint, applied, now, io) =>
        KeptEntry(PutCheckpoint(n.mem, k, checkpoint, applied), now, io, n.disk, n'.mem, n'.disk, key);
      case RecordPending(_, now, io) =>
        var item := n.publishing.item;
        if item.key != "" && item.version != 0 {
          KeptEntry(PutPending(n.mem, item.key, item.stateKey, item.version, now), now, io, n.disk, n'.mem, n'.disk, key);
        }
      case RecordPeerAck(_, ack, now, io) =>
        KeptEntry(PutPeerAck(n.mem, ack.ackedBy, ack.ackedKey, ack.appliedAt, now), now, io, n.disk, n'.mem, n'.disk, key);
      case ClearPending(_, ack, now, io) =>
        if ack.ackedKey in n.mem.pending {
          KeptEntry(SetStatus(n.mem, ack.ackedKey, Acked, now), now, io, n.disk, n'.mem, n'.disk, key);
        }
      case Expire(_, k, now, io) =>
        KeptEntry(SetStatus(n.mem, k, Expired, now), now, io, n.disk, n'.mem, n'.disk, key);
      case RecordConflict(_, k, reason, now, io) =>
        KeptEntry(PutConflict(n.mem, k, reason, "", 0, now), now, io, n.disk, n'.mem, n'.disk, key);
      case ResolveOnDisk(_, _, _, _, _) =>
      case Send(_, _, _, _) =>
      case SendFailed(_, _) =>
      case Abandon(_) =>
      case Apply(_, _, _, _) =>
      case Accept(_, _, _) =>
      case Prune(_, _, _) =>
      case Restart(_) =>
    }
  }

  /** In every run without a restart of the node, an entry that stays in its table has been retried exactly as often as its
      counter has grown, through re-publications, acks and expiries: with at most eight retries counted, at most eight. */
  lemma {:induction false} RetriesAreCounted(states: seq<System>, events: seq<Event>, i: nat, j: nat, a: string, key: string)
    requires Run(states, events) && i <= j < |states|
    requires forall t :: i <= t <= j ==> a in states[t].nodes && key in states[t].nodes[a].mem.pending
    requires forall t :: i <= t < j ==> !Restarts(events[t], a)
    ensures states[j].nodes[a].mem.pending[key].retries
         == states[i].nodes[a].mem.pending[key].retries + BumpCount(states, events, i, j, a, key)
    ensures BumpCount(states, events, i, j, a, key) <= 8
    decreases j
  {
    hide Step, Init, Inv, Bumps;
    RunsKeepInvariant(states, events, i);
    RunsKeepInvariant(states, events, j);
    RetriesWithin(states[i], a, key);
    RetriesWithin(states[j], a, key);
    if i < j {
      RetriesAreCounted(states, events, i, j - 1, a, key);
      RunsKeepInvariant(states, events, j - 1);
      StepKeepsRetries(states[j - 1], events[j - 1], states[j], a, key);
    }
  }

  lemma RetriesWithin(s: System, a: string, key: string)
    requires Inv(s) && a in s.nodes && key in s.nodes[a].mem.pending
    ensures 0 <= s.nodes[a].mem.pending[key].retries <= 8
  {}
}
