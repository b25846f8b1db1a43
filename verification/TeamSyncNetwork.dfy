/** The Team sync protocol of several honest nodes over a network that loses, duplicates and reorders messages
    (internal/aip2p/team_sync.go). Every step below is one section under a node's mutex together with the write that
    follows it; the clock each step reads is arbitrary. */
module TeamSyncNetwork {
  import opened TeamSyncState

  /** A published item names its sender; an ack names the node it is meant for. */
  datatype Item = Item(team: string, key: string, stateKey: string, source: string, version: Time)

  datatype Msg = ItemMsg(item: Item) | AckMsg(ack: Ack)

  /** Where the publishing loop of a node stands between sending an item and recording it as pending. */
  datatype Publishing = Idle | Sent(item: Item, retry: bool)

  /** `accepted` are acks past handleAck's guard whose three persist calls may still come, in any order and number.
      `last` is the key last recorded under each state key; `lastOnDisk` the same for what reached the file. */
  datatype Node = Node(
    mem: State, disk: State, seen: map<string, Time>, publishing: Publishing, accepted: set<Ack>,
    last: map<string, string>, lastOnDisk: map<string, string>)

  /** `net` holds every message ever sent: delivering one any number of times, late or never, is left open.
      `published` has (node, key) and `applied` (node, publishing node, key): what really happened. */
  datatype System = System(
    nodes: map<string, Node>, net: set<Msg>, published: set<(string, string)>, applied: set<(string, string, string)>)

  const FRESH := Node(EMPTY, EMPTY, map[], Idle, {}, map[], map[])

  ghost predicate Init(s: System) {
    s.net == {} && s.published == {} && s.applied == {} && forall a <- s.nodes :: s.nodes[a] == FRESH
  }

  // ---------- Steps ----------

  datatype Event =
    | Send(a: string, item: Item, retry: bool, now: Time)
    | SendFailed(a: string, item: Item)
    | Bump(a: string, now: Time, io: Io)
    | RecordCheckpoint(a: string, stateKey: string, checkpoint: Checkpoint, isApplied: bool, now: Time, io: Io)
    | RecordPending(a: string, now: Time, io: Io)
    | Abandon(a: string)
    | Apply(b: string, item: Item, ackSent: bool, now: Time)
    | Accept(a: string, ack: Ack, now: Time)
    | RecordPeerAck(a: string, ack: Ack, now: Time, io: Io)
    | ClearPending(a: string, ack: Ack, now: Time, io: Io)
    | Expire(a: string, key: string, now: Time, io: Io)
    | RecordConflict(a: string, key: string, reason: string, now: Time, io: Io)
    | ResolveOnDisk(a: string, key: string, resolution: string, now: Time, io: Io)
    | Prune(a: string, maxAge: nat, now: Time)
    | Restart(a: string)

  /** A persist call on a node: the committed state, and the ghost record of what reached the disk. */
  ghost predicate Persisted(n: Node, next: State, now: Time, io: Io, n': Node) {
    && Committed(next, now, io, n.disk, n'.mem, n'.disk)
    && n' == n.(mem := n'.mem, disk := n'.disk, lastOnDisk := if io.ready && io.written then n.last else n.lastOnDisk)
  }

  ghost predicate NodeStep(s: System, e: Event, a: string, n: Node, n': Node) {
    match e
    case Send(_, item, retry, now) =>
      && n.publishing.Idle?
      && (if retry then MayRetry(n.mem, item.key, now) && RetryDue(n.mem.pending[item.key], now) else item.key !in n.seen)
      && n' == n.(publishing := Sent(item, retry), seen := n.seen[item.key := now])
    case SendFailed(_, _) => n' == n
    case Bump(_, now, io) =>
      && n.publishing.Sent? && n.publishing.retry
      && var done := n.(publishing := Sent(n.publishing.item, false));
         if n.publishing.item.key in n.mem.pending
         then Persisted(done, BumpRetry(n.mem, n.publishing.item.key, now), now, io, n')
         else n' == done
    case RecordCheckpoint(_, stateKey, checkpoint, isApplied, now, io) =>
      Persisted(n, PutCheckpoint(n.mem, stateKey, checkpoint, isApplied), now, io, n')
    case RecordPending(_, now, io) =>
      && n.publishing.Sent? && !n.publishing.retry
      && var item := n.publishing.item;
         if item.key == "" || item.version == 0 then n' == n.(publishing := Idle)
         else Persisted(n.(publishing := Idle, last := n.last[item.stateKey := item.key]),
                        PutPending(n.mem, item.key, item.stateKey, item.version, now), now, io, n')
    case Abandon(_) => n.publishing.Sent? && n' == n.(publishing := Idle)
    case Apply(_, item, _, now) => n' == n.(seen := n'.seen)
    case Accept(_, ack, now) =>
      && AckAcceptable(n.mem, n.seen, a, ack)
      && n' == n.(seen := n.seen[AckKey(ack) := now], accepted := n.accepted + {ack})
    case RecordPeerAck(_, ack, now, io) =>
      && ack in n.accepted
      && Persisted(n, PutPeerAck(n.mem, ack.ackedBy, ack.ackedKey, ack.appliedAt, now), now, io, n')
    case ClearPending(_, ack, now, io) =>
      && ack in n.accepted
      && if ack.ackedKey in n.mem.pending
         then Persisted(n, SetStatus(n.mem, ack.ackedKey, Acked, now), now, io, n')
         else n' == n
    case Expire(_, key, now, io) =>
      && key in n.mem.pending && CountsAsPending(n.mem.pending[key]) && Overdue(n.mem.pending[key], now)
      && Persisted(n, SetStatus(n.mem, key, Expired, now), now, io, n')
    case RecordConflict(_, key, reason, now, io) =>
      Persisted(n, PutConflict(n.mem, key, reason, "", 0, now), now, io, n')
    case ResolveOnDisk(_, key, resolution, now, io) =>
      && key in n.disk.conflicts && n' == n.(disk := n'.disk)
      && if io.ready && io.written
         then Written(n.disk, PutConflict(n.disk, key, n.disk.conflicts[key].reason, resolution, now, now), io.loaded, io.clock, n'.disk)
         else n'.disk == n.disk
    case Prune(_, maxAge, now) =>
      n' == n.(seen := map key | key in n.seen && !(n.seen[key] < now - maxAge) :: n.seen[key])
    case Restart(_) =>
      n' == n.(mem := n.disk, seen := map[], publishing := Idle, accepted := {}, last := n.lastOnDisk)
  }

  function Actor(e: Event): string {
    if e.Apply? then e.b else e.a
  }

  /** The ack publishAck sends for an applied item. */
  function AckFor(b: string, item: Item, now: Time): Msg {
    AckMsg(Ack(item.team, item.key, b, item.source, now))
  }

  /** What a step adds to the network and to the record of what happened. */
  ghost predicate SharedStep(s: System, e: Event, s': System) {
    match e
    case Send(a, item, _, _) =>
      item.source == a
      && s'.net == s.net + {ItemMsg(item)} && s'.published == s.published + {(a, item.key)} && s'.applied == s.applied
    case SendFailed(a, item) =>
      item.source == a
      && s'.net == s.net + {ItemMsg(item)} && s'.published == s.published + {(a, item.key)} && s'.applied == s.applied
    case Apply(b, item, ackSent, now) =>
      && ItemMsg(item) in s.net
      && s'.published == s.published && s'.applied == s.applied + {(b, item.source, item.key)}
      && s'.net == if ackSent && item.key != "" && item.source != "" then s.net + {AckFor(b, item, now)} else s.net
    case Accept(_, ack, _) =>
      AckMsg(ack) in s.net && s'.net == s.net && s'.published == s.published && s'.applied == s.applied
    case _ => s'.net == s.net && s'.published == s.published && s'.applied == s.applied
  }

  ghost predicate Step(s: System, e: Event, s': System) {
    var a := Actor(e);
    && a in s.nodes && a in s'.nodes
    && s'.nodes == s.nodes[a := s'.nodes[a]]
    && NodeStep(s, e, a, s.nodes[a], s'.nodes[a])
    && SharedStep(s, e, s')
  }

  /** A run: states from an empty start, each reached from the one before by its event. */
  ghost predicate Run(states: seq<System>, events: seq<Event>) {
    && |states| == |events| + 1 && Init(states[0])
    && forall i :: 0 <= i < |events| ==> Step(states[i], events[i], states[i + 1])
  }

  // ---------- Invariant ----------

  /** a published k, and b is another node that really applied it. */
  predicate Backed(s: System, a: string, b: string, k: string) {
    b != a && (a, k) in s.published && (b, a, k) in s.applied
  }

  ghost predicate AcksBacked(s: System, a: string, st: State) {
    && (forall b <- st.peerAcks :: forall k <- st.peerAcks[b] :: Backed(s, a, b, k))
    && (forall k <- st.pending :: st.pending[k].status.Acked? ==> exists b :: Backed(s, a, b, k))
  }

  /** Every pending entry is the last one recorded under its state key. */
  ghost predicate PendingIsLast(st: State, last: map<string, string>) {
    && (forall k <- st.pending :: !st.pending[k].status.Blank?)
    && (forall k <- st.pending :: st.pending[k].status.Pending? ==> IsLast(last, st.pending[k].stateKey, k))
  }

  predicate IsLast(last: map<string, string>, stateKey: string, key: string) {
    stateKey in last && last[stateKey] == key
  }

  ghost predicate RetriesBounded(st: State) {
    forall k <- st.pending ::
      0 <= st.pending[k].retries <= PENDING_MAX_RETRY && (CountsAsPending(st.pending[k]) ==> st.pending[k].retries < PENDING_MAX_RETRY)
  }

  ghost predicate AcksBounded(st: State) {
    forall b <- st.peerAcks :: |st.peerAcks[b]| <= PEER_ACK_PER_PEER
  }

  ghost predicate StateOk(s: System, a: string, st: State, last: map<string, string>) {
    AcksBacked(s, a, st) && PendingIsLast(st, last) && RetriesBounded(st) && AcksBounded(st)
  }

  /** Between sending a retry and bumping it, the entry still has a retry left and is the last of its state key. */
  ghost predicate PublishingOk(n: Node) {
    n.publishing.Sent? && n.publishing.retry && n.publishing.item.key in n.mem.pending ==>
      var item := n.mem.pending[n.publishing.item.key];
      item.retries < PENDING_MAX_RETRY && IsLast(n.last, item.stateKey, n.publishing.item.key)
  }

  ghost predicate NodeOk(s: System, a: string, n: Node) {
    && StateOk(s, a, n.mem, n.last)
    && StateOk(s, a, n.disk, n.lastOnDisk)
    && PublishingOk(n)
    && (forall ack <- n.accepted :: Backed(s, a, ack.ackedBy, ack.ackedKey))
  }

  ghost predicate NetOk(s: System) {
    && (forall m <- s.net :: m.ItemMsg? ==> (m.item.source, m.item.key) in s.published)
    && (forall m <- s.net :: m.AckMsg? ==>
          && m.ack.target != "" && (m.ack.target, m.ack.ackedKey) in s.published
          && (m.ack.ackedBy, m.ack.target, m.ack.ackedKey) in s.applied)
  }

  ghost predicate Inv(s: System) {
    NetOk(s) && forall a <- s.nodes :: NodeOk(s, a, s.nodes[a])
  }

  /** What happened stays happened. */
  ghost predicate Grows(s: System, s': System) {
    s.published <= s'.published && s.applied <= s'.applied
  }

  lemma GrowKeepsState(s: System, s': System, a: string, st: State, last: map<string, string>)
    requires Grows(s, s') && StateOk(s, a, st, last)
    ensures StateOk(s', a, st, last)
  {
    forall k | k in st.pending && st.pending[k].status.Acked?
      ensures exists b :: Backed(s', a, b, k)
    {
      var b :| Backed(s, a, b, k);
      assert Backed(s', a, b, k);
    }
  }

  // ---------- Compaction, merge and commit keep the invariant ----------

  lemma CompactKeeps(s: System, a: string, st: State, now: Time, t: State, last: map<string, string>)
    requires AcksBacked(s, a, st) && PendingIsLast(st, last) && Compacted(st, now, t)
    requires forall k <- st.pending :: 0 <= st.pending[k].retries <= PENDING_MAX_RETRY
    ensures StateOk(s, a, t, last)
  {
    forall b | b in t.peerAcks
      ensures |t.peerAcks[b]| <= PEER_ACK_PER_PEER
      ensures forall k <- t.peerAcks[b] :: k in st.peerAcks[b]
    {
      TrimmedAcksBounds(st.peerAcks[b], now, t.peerAcks[b]);
    }
  }

  lemma MergeKeeps(s: System, a: string, disk: State, mem: State, last: map<string, string>)
    requires AcksBacked(s, a, mem) && AcksBacked(s, a, disk) && PendingIsLast(mem, last)
    ensures AcksBacked(s, a, Merge(disk, mem)) && PendingIsLast(Merge(disk, mem), last)
  {}

  lemma WriteKeeps(s: System, a: string, disk: State, incoming: State, loaded: bool, clock: Time, out: State, last: map<string, string>)
    requires AcksBacked(s, a, disk) && StateOk(s, a, incoming, last) && Written(disk, incoming, loaded, clock, out)
    ensures StateOk(s, a, out, last)
  {
    MergeKeeps(s, a, disk, incoming, last);
    CompactKeeps(s, a, if loaded then Merge(disk, incoming) else incoming, clock, out, last);
  }

  /** A persist call keeps a node in order when the update it commits is. */
  lemma PersistKeeps(s: System, a: string, n: Node, next: State, now: Time, io: Io, n': Node)
    requires Persisted(n, next, now, io, n')
    requires StateOk(s, a, n.disk, n.lastOnDisk)
    requires AcksBacked(s, a, next) && PendingIsLast(next, n.last)
    requires forall k <- next.pending :: 0 <= next.pending[k].retries <= PENDING_MAX_RETRY
    ensures StateOk(s, a, n'.mem, n'.last) && StateOk(s, a, n'.disk, n'.lastOnDisk)
  {
    var compacted :| Compacted(next, now, compacted) && AfterWrite(compacted, io, n.disk, n'.mem, n'.disk);
    hide Compacted, StateOk;
    CompactKeeps(s, a, next, now, compacted, n.last);
    if io.ready {
      WriteKeeps(s, a, n.disk, compacted, io.loaded, io.clock, n'.mem, n.last);
    }
  }

  /** Compaction changes neither the state key nor the retries of an entry it keeps. */
  lemma CommitKeepsPublishing(n: Node, next: State, now: Time, io: Io, n': Node)
    requires Persisted(n, next, now, io, n') && PublishingOk(n.(mem := next))
    ensures PublishingOk(n')
  {
    hide Committed;
    PendingOfCommit(next, now, io, n.disk, n'.mem, n'.disk);
  }

  /** Steps that commit nothing. */
  predicate Quiet(e: Event) {
    e.Send? || e.SendFailed? || e.Abandon? || e.Apply? || e.Accept? || e.Prune? || e.Restart?
  }

  lemma QuietStepKeeps(s: System, e: Event, s': System, a: string, n: Node, n': Node)
    requires NetOk(s) && NodeOk(s', a, n) && Quiet(e)
    requires NodeStep(s, e, a, n, n') && SharedStep(s, e, s')
    ensures NodeOk(s', a, n')
  {}

  /** Committing an update that touches no pending entry. */
  lemma TableCommitKeeps(s: System, a: string, n: Node, next: State, now: Time, io: Io, n': Node)
    requires NodeOk(s, a, n) && Persisted(n, next, now, io, n')
    requires next.pending == n.mem.pending && AcksBacked(s, a, next)
    ensures NodeOk(s, a, n')
  {
    hide Committed, Backed, AcksBounded;
    PersistKeeps(s, a, n, next, now, io, n');
    hide AcksBacked, PendingIsLast, RetriesBounded, IsLast;
    CommitKeepsPublishing(n, next, now, io, n');
  }

  lemma PeerAckBacked(s: System, a: string, st: State, ack: Ack, now: Time)
    requires AcksBacked(s, a, st) && Backed(s, a, ack.ackedBy, ack.ackedKey)
    ensures AcksBacked(s, a, PutPeerAck(st, ack.ackedBy, ack.ackedKey, ack.appliedAt, now))
  {
    hide Backed;
  }

  /** Steps whose update touches no pending entry. */
  lemma TableStepKeeps(s: System, e: Event, s': System, a: string, n: Node, n': Node)
    requires NodeOk(s', a, n) && (e.RecordCheckpoint? || e.RecordPeerAck? || e.RecordConflict? || e.ResolveOnDisk?)
    requires NodeStep(s, e, a, n, n')
    ensures NodeOk(s', a, n')
  {
    hide Committed, Written, Backed, PendingIsLast, RetriesBounded, AcksBounded, PublishingOk;
    match e
    case RecordCheckpoint(_, stateKey, checkpoint, isApplied, now, io) =>
      TableCommitKeeps(s', a, n, PutCheckpoint(n.mem, stateKey, checkpoint, isApplied), now, io, n');
    case RecordPeerAck(_, ack, now, io) =>
      PeerAckBacked(s', a, n.mem, ack, now);
      TableCommitKeeps(s', a, n, PutPeerAck(n.mem, ack.ackedBy, ack.ackedKey, ack.appliedAt, now), now, io, n');
    case RecordConflict(_, key, reason, now, io) =>
      TableCommitKeeps(s', a, n, PutConflict(n.mem, key, reason, "", 0, now), now, io, n');
    case ResolveOnDisk(_, key, resolution, now, io) =>
      ResolveKeeps(s', a, n, key, resolution, now, io, n'.disk);
      hide AcksBacked;
      PublishingSame(n, n');
  }

  lemma PublishingSame(n: Node, n': Node)
    requires PublishingOk(n) && n' == n.(disk := n'.disk)
    ensures PublishingOk(n')
  {}

  lemma ResolveKeeps(s: System, a: string, n: Node, key: string, resolution: string, now: Time, io: Io, disk': State)
    requires StateOk(s, a, n.disk, n.lastOnDisk) && key in n.disk.conflicts
    requires var next := PutConflict(n.disk, key, n.disk.conflicts[key].reason, resolution, now, now);
             if io.ready && io.written then Written(n.disk, next, io.loaded, io.clock, disk') else disk' == n.disk
    ensures StateOk(s, a, disk', n.lastOnDisk)
  {
    if io.ready && io.written {
      var next := PutConflict(n.disk, key, n.disk.conflicts[key].reason, resolution, now, now);
      hide Written, Backed, IsLast;
      WriteKeeps(s, a, n.disk, next, io.loaded, io.clock, disk', n.lastOnDisk);
    }
  }

  /** Steps on the pending table. */
  lemma PendingStepKeeps(s: System, e: Event, s': System, a: string, n: Node, n': Node)
    requires NodeOk(s', a, n) && (e.Bump? || e.RecordPending? || e.ClearPending? || e.Expire?)
    requires NodeStep(s, e, a, n, n')
    ensures NodeOk(s', a, n')
  {
    match e
    case Bump(_, now, io) =>
      if n.publishing.item.key in n.mem.pending {
        BumpStep(s', a, n, now, io, n');
      }
    case RecordPending(_, now, io) =>
      if !(n.publishing.item.key == "" || n.publishing.item.version == 0) {
        RecordPendingStep(s', a, n, now, io, n');
      }
    case ClearPending(_, ack, now, io) =>
      if ack.ackedKey in n.mem.pending {
        StatusStep(s', a, n, ack.ackedKey, Acked, ack.ackedBy, now, io, n');
      }
    case Expire(_, key, now, io) =>
      StatusStep(s', a, n, key, Expired, "", now, io, n');
  }

  lemma GrowKeepsNode(s: System, s': System, a: string, n: Node)
    requires Grows(s, s') && NodeOk(s, a, n)
    ensures NodeOk(s', a, n)
  {
    GrowKeepsState(s, s', a, n.mem, n.last);
    GrowKeepsState(s, s', a, n.disk, n.lastOnDisk);
    assert forall ack <- n.accepted :: Backed(s', a, ack.ackedBy, ack.ackedKey);
  }

  lemma NodeStepKeeps(s: System, e: Event, s': System, a: string, n: Node, n': Node)
    requires NetOk(s) && NodeOk(s, a, n)
    requires NodeStep(s, e, a, n, n') && SharedStep(s, e, s')
    ensures NodeOk(s', a, n')
  {
    hide NodeOk, NodeStep, NetOk;
    GrowKeepsNode(s, s', a, n);
    if Quiet(e) {
      QuietStepKeeps(s, e, s', a, n, n');
    } else if e.Bump? || e.RecordPending? || e.ClearPending? || e.Expire? {
      PendingStepKeeps(s, e, s', a, n, n');
    } else {
      TableStepKeeps(s, e, s', a, n, n');
    }
  }

  /** What an update of the pending table must satisfy for its commit to keep the node in order. */
  ghost predicate GoodUpdate(s: System, a: string, next: State, last: map<string, string>) {
    AcksBacked(s, a, next) && PendingIsLast(next, last) && forall k <- next.pending :: 0 <= next.pending[k].retries <= PENDING_MAX_RETRY
  }

  lemma UpdateKeeps(s: System, a: string, n: Node, next: State, now: Time, io: Io, n': Node)
    requires StateOk(s, a, n.disk, n.lastOnDisk) && GoodUpdate(s, a, next, n.last) && Persisted(n, next, now, io, n')
    ensures StateOk(s, a, n'.mem, n'.last) && StateOk(s, a, n'.disk, n'.lastOnDisk)
    ensures PublishingOk(n.(mem := next)) ==> PublishingOk(n')
  {
    hide Committed, StateOk, AcksBacked, PendingIsLast;
    PersistKeeps(s, a, n, next, now, io, n');
    if PublishingOk(n.(mem := next)) {
      CommitKeepsPublishing(n, next, now, io, n');
    }
  }

  lemma StatusStep(s: System, a: string, n: Node, key: string, status: Status, b: string, now: Time, io: Io, n': Node)
    requires StateOk(s, a, n.mem, n.last) && StateOk(s, a, n.disk, n.lastOnDisk) && PublishingOk(n)
    requires key in n.mem.pending && (status.Expired? || (status.Acked? && Backed(s, a, b, key)))
    requires Persisted(n, SetStatus(n.mem, key, status, now), now, io, n')
    ensures StateOk(s, a, n'.mem, n'.last) && StateOk(s, a, n'.disk, n'.lastOnDisk) && PublishingOk(n')
  {
    hide Committed, Backed;
    var next := SetStatus(n.mem, key, status, now);
    assert PublishingOk(n.(mem := next));
    assert GoodUpdate(s, a, next, n.last);
    hide StateOk, GoodUpdate, PublishingOk;
    UpdateKeeps(s, a, n, next, now, io, n');
  }

  lemma BumpStep(s: System, a: string, n: Node, now: Time, io: Io, n': Node)
    requires StateOk(s, a, n.mem, n.last) && StateOk(s, a, n.disk, n.lastOnDisk) && PublishingOk(n)
    requires n.publishing.Sent? && n.publishing.retry && n.publishing.item.key in n.mem.pending
    requires Persisted(n.(publishing := Sent(n.publishing.item, false)),
                       BumpRetry(n.mem, n.publishing.item.key, now), now, io, n')
    ensures StateOk(s, a, n'.mem, n'.last) && StateOk(s, a, n'.disk, n'.lastOnDisk) && PublishingOk(n')
  {
    hide Committed, Backed;
    var key := n.publishing.item.key;
    var next := BumpRetry(n.mem, key, now);
    assert forall k <- next.pending :: k != key ==> next.pending[k] == n.mem.pending[k];
    assert GoodUpdate(s, a, next, n.last);
    hide StateOk, GoodUpdate;
    UpdateKeeps(s, a, n.(publishing := Sent(n.publishing.item, false)), next, now, io, n');
  }

  lemma PendingUpdateIsGood(s: System, a: string, st: State, last: map<string, string>, item: Item, now: Time)
    requires StateOk(s, a, st, last)
    ensures GoodUpdate(s, a, PutPending(st, item.key, item.stateKey, item.version, now), last[item.stateKey := item.key])
  {
    hide Backed;
  }

  lemma RecordPendingStep(s: System, a: string, n: Node, now: Time, io: Io, n': Node)
    requires StateOk(s, a, n.mem, n.last) && StateOk(s, a, n.disk, n.lastOnDisk)
    requires n.publishing.Sent?
    requires var item := n.publishing.item;
             Persisted(n.(publishing := Idle, last := n.last[item.stateKey := item.key]),
                       PutPending(n.mem, item.key, item.stateKey, item.version, now), now, io, n')
    ensures StateOk(s, a, n'.mem, n'.last) && StateOk(s, a, n'.disk, n'.lastOnDisk) && PublishingOk(n')
  {
    hide Committed, StateOk, GoodUpdate, PutPending;
    var item := n.publishing.item;
    var next := PutPending(n.mem, item.key, item.stateKey, item.version, now);
    PendingUpdateIsGood(s, a, n.mem, n.last, item, now);
    UpdateKeeps(s, a, n.(publishing := Idle, last := n.last[item.stateKey := item.key]), next, now, io, n');
  }

  lemma StepKeeps(s: System, e: Event, s': System)
    requires Inv(s) && Step(s, e, s')
    ensures Inv(s')
  {
    var actor := Actor(e);
    assert NetOk(s');
    hide NodeOk, NodeStep, NetOk;
    NodeStepKeeps(s, e, s', actor, s.nodes[actor], s'.nodes[actor]);
    forall a | a in s'.nodes
      ensures NodeOk(s', a, s'.nodes[a])
    {
      if a != actor {
        GrowKeepsNode(s, s', a, s.nodes[a]);
      }
    }
  }

  lemma {:induction false} RunsKeepInvariant(states: seq<System>, events: seq<Event>, i: nat)
    requires Run(states, events) && i < |states|
    ensures Inv(states[i])
  {
    if i > 0 {
      RunsKeepInvariant(states, events, i - 1);
      StepKeeps(states[i - 1], events[i - 1], states[i]);
    }
  }

  // ---------- Theorems over whole runs ----------

  /** In every run, in memory and on disk: an ack recorded at a for key k from peer b means that a published k and
      that b, another node, applied it; an acked entry means that some other node applied it. */
  lemma RecordedAcksHappened(states: seq<System>, events: seq<Event>, i: nat, a: string)
    requires Run(states, events) && i < |states| && a in states[i].nodes
    ensures forall st | st in {states[i].nodes[a].mem, states[i].nodes[a].disk} ::
              && (forall b <- st.peerAcks :: forall k <- st.peerAcks[b] ::
                    b != a && (a, k) in states[i].published && (b, a, k) in states[i].applied)
              && (forall k <- st.pending :: st.pending[k].status.Acked? ==>
                    (a, k) in states[i].published && exists b :: b != a && (b, a, k) in states[i].applied)
  {
    RunsKeepInvariant(states, events, i);
    forall st, k | st in {states[i].nodes[a].mem, states[i].nodes[a].disk} && k in st.pending && st.pending[k].status.Acked?
      ensures (a, k) in states[i].published && exists b :: b != a && (b, a, k) in states[i].applied
    {
      var b :| Backed(states[i], a, b, k);
      assert b != a && (b, a, k) in states[i].applied;
    }
  }

  /** At most one entry per state key is pending, and it is the one last recorded under that key; no entry has more than
      eight retries and a pending one has fewer; no peer has more than 128 acks. */
  ghost predicate InBounds(st: State, last: map<string, string>) {
    && (forall k <- st.pending :: st.pending[k].status.Pending? ==>
          st.pending[k].stateKey in last && last[st.pending[k].stateKey] == k)
    && (forall j, k :: j in st.pending && k in st.pending && st.pending[j].status.Pending? && st.pending[k].status.Pending?
            && st.pending[j].stateKey == st.pending[k].stateKey
          ==> j == k)
    && (forall k <- st.pending :: 0 <= st.pending[k].retries <= PENDING_MAX_RETRY)
    && (forall k <- st.pending :: st.pending[k].status.Pending? ==> st.pending[k].retries < PENDING_MAX_RETRY)
    && (forall b <- st.peerAcks :: |st.peerAcks[b]| <= PEER_ACK_PER_PEER)
  }

  /** In every run both memory and file are in bounds, the file with respect to what was recorded in it. */
  lemma OnePendingPerStateKey(states: seq<System>, events: seq<Event>, i: nat, a: string)
    requires Run(states, events) && i < |states| && a in states[i].nodes
    ensures var n := states[i].nodes[a]; InBounds(n.mem, n.last) && InBounds(n.disk, n.lastOnDisk)
  {
    RunsKeepInvariant(states, events, i);
  }

  /** After every persist call a pending entry in memory was last touched no more than six hours before the last compaction
      and has retries left, and a file just written is equal to memory. */
  lemma WritesLeaveFreshPending(n: Node, next: State, now: Time, io: Io, n': Node, k: string)
    requires Persisted(n, next, now, io, n')
    ensures k in n'.mem.pending && CountsAsPending(n'.mem.pending[k]) ==>
              && n'.mem.pending[k].retries < PENDING_MAX_RETRY
              && !OlderThan(n'.mem.pending[k].updatedAt, if io.ready then io.clock else now, PENDING_MAX_AGE)
    ensures n'.disk == if io.ready && io.written then n'.mem else n.disk
  {
    hide Committed;
    PendingOfCommit(next, now, io, n.disk, n'.mem, n'.disk);
  }

  /** A settled entry is not settled for good: publishing the key again makes an acked or expired entry pending, the only one
      of its state key, unless the write that follows takes place more than six hours later. */
  lemma SettledEntriesReturn(n: Node, key: string, stateKey: string, version: Time, now: Time, io: Io, n': Node)
    requires key in n.mem.pending && n.mem.pending[key].retries < PENDING_MAX_RETRY
    requires Persisted(n, PutPending(n.mem, key, stateKey, version, now), now, io, n')
    ensures key in n'.mem.pending && n'.mem.pending[key].stateKey == stateKey
    ensures n'.mem.pending[key].status == Pending <==> !(io.ready && OlderThan(now, io.clock, PENDING_MAX_AGE))
    ensures forall k <- n'.mem.pending :: k != key && n'.mem.pending[k].stateKey == stateKey ==> n'.mem.pending[k].status != Pending
  {
    hide Committed;
    PendingOfCommit(PutPending(n.mem, key, stateKey, version, now), now, io, n.disk, n'.mem, n'.disk);
  }
}
