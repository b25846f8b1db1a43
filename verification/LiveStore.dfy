/** The event log of one live room: append, prune, index and read cache
    (internal/aip2p/live/store.go). */
module LiveStore {
  import opened Options
  import opened Text

  datatype Kind = Message | Join | Leave | Heartbeat | TaskUpdate | ArchiveNotice | RoomAnnounce

  /** One line of events.jsonl: `key` is liveEventKey, `size` the bytes of the line with its newline and
      `at` the parsed timestamp, if it parses. */
  datatype Event = Event(kind: Kind, key: string, size: nat, at: Option<int>)

  /** LiveRoomRetainHeartbeatEvents. */
  const RETAIN_HEARTBEATS := 20

  /** The bytes isImmediateDuplicateEvent reads from the end of the file. */
  const TAIL_BYTES := 262144

  // ---------- Retention ----------

  function NonHeartbeats(events: seq<Event>): seq<Event> {
    if events == [] then []
    else (if events[0].kind.Heartbeat? then [] else [events[0]]) + NonHeartbeats(events[1..])
  }

  function Heartbeats(events: seq<Event>): seq<Event> {
    if events == [] then []
    else (if events[0].kind.Heartbeat? then [events[0]] else []) + Heartbeats(events[1..])
  }

  /** The last n elements. */
  function Last(events: seq<Event>, n: nat): seq<Event> {
    if n < |events| then events[|events| - n..] else events
  }

  /** Whether the first event survives: it has fewer than the limit of its kind after it. */
  predicate KeepsFirst(events: seq<Event>, keepOther: int, keepHeartbeat: int)
    requires events != []
  {
    if events[0].kind.Heartbeat? then |Heartbeats(events[1..])| < keepHeartbeat
    else keepOther <= 0 || |NonHeartbeats(events[1..])| < keepOther
  }

  function Retain(events: seq<Event>, keepOther: int, keepHeartbeat: int): seq<Event> {
    if events == [] then []
    else (if KeepsFirst(events, keepOther, keepHeartbeat) then [events[0]] else [])
         + Retain(events[1..], keepOther, keepHeartbeat)
  }

  function Dropped(events: seq<Event>, keepOther: int, keepHeartbeat: int): seq<Event> {
    if events == [] then []
    else (if KeepsFirst(events, keepOther, keepHeartbeat) then [] else [events[0]])
         + Dropped(events[1..], keepOther, keepHeartbeat)
  }

  /** What pruneRoomEvents keeps. */
  function Pruned(events: seq<Event>): seq<Event> {
    Retain(events, 0, RETAIN_HEARTBEATS)
  }

  lemma CountsConcat(a: seq<Event>, b: seq<Event>)
    ensures NonHeartbeats(a + b) == NonHeartbeats(a) + NonHeartbeats(b)
    ensures Heartbeats(a + b) == Heartbeats(a) + Heartbeats(b)
  {
    HeartbeatsConcat(a, b);
    NonHeartbeatsConcat(a, b);
    hide Heartbeats, NonHeartbeats;
  }

  lemma {:induction false} HeartbeatsConcat(a: seq<Event>, b: seq<Event>)
    ensures Heartbeats(a + b) == Heartbeats(a) + Heartbeats(b)
  {
    hide Heartbeats;
    HeartbeatsStep(a);
    if a == [] {
      assert a + b == b;
    } else {
      assert (a + b)[1..] == a[1..] + b;
      HeartbeatsConcat(a[1..], b);
      HeartbeatsStep(a + b);
    }
  }

  lemma HeartbeatsStep(events: seq<Event>)
    ensures Heartbeats(events)
         == if events == [] then [] else (if events[0].kind.Heartbeat? then [events[0]] else []) + Heartbeats(events[1..])
  {}

  lemma {:induction false} NonHeartbeatsConcat(a: seq<Event>, b: seq<Event>)
    ensures NonHeartbeats(a + b) == NonHeartbeats(a) + NonHeartbeats(b)
  {
    hide NonHeartbeats;
    NonHeartbeatsStep(a);
    if a == [] {
      assert a + b == b;
    } else {
      assert (a + b)[1..] == a[1..] + b;
      NonHeartbeatsConcat(a[1..], b);
      NonHeartbeatsStep(a + b);
    }
  }

  lemma NonHeartbeatsStep(events: seq<Event>)
    ensures NonHeartbeats(events)
         == if events == [] then [] else (if events[0].kind.Heartbeat? then [] else [events[0]]) + NonHeartbeats(events[1..])
  {}

  /** For any limits: of the heartbeats the latest stay, in order; of the others the latest or, with no limit, all. */
  lemma {:induction false} RetainedContents(events: seq<Event>, keepOther: int, keepHeartbeat: nat)
    ensures Heartbeats(Retain(events, keepOther, keepHeartbeat)) == Last(Heartbeats(events), keepHeartbeat)
    ensures NonHeartbeats(Retain(events, keepOther, keepHeartbeat))
         == if keepOther <= 0 then NonHeartbeats(events) else Last(NonHeartbeats(events), keepOther)
  {
    if events != [] {
      var first, rest := events[0], events[1..];
      RetainedContents(rest, keepOther, keepHeartbeat);
      assert events == [first] + rest;
      CountsConcat([first], rest);
      CountsConcat([first], Retain(rest, keepOther, keepHeartbeat));
      OneKind(first);
      LastOfCons(first, Heartbeats(rest), keepHeartbeat);
      if keepOther > 0 { LastOfCons(first, NonHeartbeats(rest), keepOther); }
      RetainCons(events, keepOther, keepHeartbeat);
      hide Heartbeats, NonHeartbeats, Retain, Last;
    }
  }

  lemma OneKind(e: Event)
    ensures Heartbeats([e]) == if e.kind.Heartbeat? then [e] else []
    ensures NonHeartbeats([e]) == if e.kind.Heartbeat? then [] else [e]
  {
    var one := [e];
    assert one[1..] == [];
  }

  lemma LastOfCons(e: Event, events: seq<Event>, n: nat)
    ensures Last([e] + events, n) == if |events| < n then [e] + Last(events, n) else Last(events, n)
    ensures [] + events == events && [] + Last(events, n) == Last(events, n)
  {}

  lemma RetainCons(events: seq<Event>, keepOther: int, keepHeartbeat: int)
    requires events != []
    ensures Retain(events, keepOther, keepHeartbeat)
         == if KeepsFirst(events, keepOther, keepHeartbeat) then [events[0]] + Retain(events[1..], keepOther, keepHeartbeat)
            else Retain(events[1..], keepOther, keepHeartbeat)
  {}

  /** Pruning keeps every non-heartbeat in order and exactly the latest heartbeats. */
  lemma PrunedContents(events: seq<Event>)
    ensures NonHeartbeats(Pruned(events)) == NonHeartbeats(events)
    ensures Heartbeats(Pruned(events)) == Last(Heartbeats(events), RETAIN_HEARTBEATS)
  {
    RetainedContents(events, 0, RETAIN_HEARTBEATS);
  }

  /** Pruning before an append loses nothing that pruning after it would keep. */
  lemma {:induction false} PruneAfterAppend(events: seq<Event>, e: Event)
    ensures Pruned(Pruned(events) + [e]) == Pruned(events + [e])
  {
    if events == [] {
      assert Pruned(events) + [e] == [e] == events + [e];
    } else {
      var rest := events[1..];
      PruneAfterAppend(rest, e);
      assert (events + [e])[1..] == rest + [e];
      CountsConcat(rest, [e]);
      PrunedContents(rest);
      CountsConcat(Pruned(rest), [e]);
      if KeepsFirst(events, 0, RETAIN_HEARTBEATS) {
        assert Pruned(events) == [events[0]] + Pruned(rest);
        assert (Pruned(events) + [e])[1..] == Pruned(rest) + [e];
      } else {
        assert Pruned(events) == Pruned(rest);
      }
    }
  }

  lemma {:induction false} RetainSplits(events: seq<Event>, keepOther: int, keepHeartbeat: int)
    ensures |Retain(events, keepOther, keepHeartbeat)| + |Dropped(events, keepOther, keepHeartbeat)| == |events|
    ensures Dropped(events, keepOther, keepHeartbeat) == [] ==> Retain(events, keepOther, keepHeartbeat) == events
  {
    if events != [] {
      RetainSplits(events[1..], keepOther, keepHeartbeat);
    }
  }

  /** With no limit on the others, only heartbeats are dropped. */
  lemma {:induction false} DroppedAreHeartbeats(events: seq<Event>, keepHeartbeat: int)
    ensures NonHeartbeats(Dropped(events, 0, keepHeartbeat)) == []
  {
    if events != [] {
      DroppedAreHeartbeats(events[1..], keepHeartbeat);
      var d := Dropped(events, 0, keepHeartbeat);
      if KeepsFirst(events, 0, keepHeartbeat) {
        assert d == Dropped(events[1..], 0, keepHeartbeat);
      } else {
        assert d[1..] == Dropped(events[1..], 0, keepHeartbeat);
      }
    }
  }

  /** Whether the event at index k survives. */
  predicate KeepsAt(events: seq<Event>, k: nat, keepOther: int, keepHeartbeat: int)
    requires k < |events|
  {
    KeepsFirst(events[k..], keepOther, keepHeartbeat)
  }

  /** Events of each kind from index k on. */
  function HeartbeatsFrom(events: seq<Event>, k: nat): nat
    requires k <= |events|
  {
    |Heartbeats(events[k..])|
  }

  function OthersFrom(events: seq<Event>, k: nat): nat
    requires k <= |events|
  {
    |NonHeartbeats(events[k..])|
  }

  lemma NothingFrom(events: seq<Event>)
    ensures HeartbeatsFrom(events, |events|) == 0 && OthersFrom(events, |events|) == 0
  {}

  lemma CountsFrom(events: seq<Event>, k: nat, keepOther: int, keepHeartbeat: int)
    requires k < |events|
    ensures HeartbeatsFrom(events, k) == HeartbeatsFrom(events, k + 1) + if events[k].kind.Heartbeat? then 1 else 0
    ensures OthersFrom(events, k) == OthersFrom(events, k + 1) + if events[k].kind.Heartbeat? then 0 else 1
    ensures KeepsAt(events, k, keepOther, keepHeartbeat)
        <==> if events[k].kind.Heartbeat? then HeartbeatsFrom(events, k + 1) < keepHeartbeat
             else keepOther <= 0 || OthersFrom(events, k + 1) < keepOther
  {
    assert events[k..][1..] == events[k + 1..];
  }

  lemma RetainAt(events: seq<Event>, k: nat, keepOther: int, keepHeartbeat: int)
    requires k < |events|
    ensures var kept, left := Retain(events[k + 1..], keepOther, keepHeartbeat), Dropped(events[k + 1..], keepOther, keepHeartbeat);
            var keeps := KeepsAt(events, k, keepOther, keepHeartbeat);
            && Retain(events[k..], keepOther, keepHeartbeat) == (if keeps then [events[k]] + kept else kept)
            && Dropped(events[k..], keepOther, keepHeartbeat) == (if keeps then left else [events[k]] + left)
  {
    assert events[k..][1..] == events[k + 1..];
    assert [] + Retain(events[k + 1..], keepOther, keepHeartbeat) == Retain(events[k + 1..], keepOther, keepHeartbeat);
    assert [] + Dropped(events[k + 1..], keepOther, keepHeartbeat) == Dropped(events[k + 1..], keepOther, keepHeartbeat);
  }

  lemma NothingAfter(events: seq<Event>, keepOther: int, keepHeartbeat: int)
    ensures Retain(events[|events|..], keepOther, keepHeartbeat) == []
    ensures Dropped(events[|events|..], keepOther, keepHeartbeat) == []
  {}

  /** The backward pass: mark what is kept. */
  method MarkKept(events: seq<Event>, keepOther: int, keepHeartbeat: int) returns (keep: array<bool>)
    ensures fresh(keep) && keep.Length == |events|
    ensures forall k :: 0 <= k < |events| ==> keep[k] == KeepsAt(events, k, keepOther, keepHeartbeat)
  {
    hide KeepsAt, HeartbeatsFrom, OthersFrom;
    NothingFrom(events);
    keep := new bool[|events|];
    var others, heartbeats := 0, 0;
    var index := |events| - 1;
    while index >= 0
      invariant -1 <= index < |events|
      invariant heartbeats <= HeartbeatsFrom(events, index + 1)
      invariant heartbeats == HeartbeatsFrom(events, index + 1) || heartbeats >= keepHeartbeat
      invariant others <= OthersFrom(events, index + 1)
      invariant others == OthersFrom(events, index + 1) || (others >= keepOther && keepOther > 0)
      invariant forall k :: index < k < |events| ==> keep[k] == KeepsAt(events, k, keepOther, keepHeartbeat)
    {
      CountsFrom(events, index, keepOther, keepHeartbeat);
      keep[index] := false;
      if events[index].kind.Heartbeat? {
        if keepHeartbeat > 0 && heartbeats < keepHeartbeat {
          keep[index] := true;
          heartbeats := heartbeats + 1;
        }
      } else if keepOther <= 0 || others < keepOther {
        keep[index] := true;
        others := others + 1;
      }
      index := index - 1;
    }
  }

  /** retainRecentLiveEvents: mark from the back, then collect from the front. */
  method RetainRecent(events: seq<Event>, keepOther: int, keepHeartbeat: int) returns (out: seq<Event>, dropped: seq<Event>)
    ensures out == Retain(events, keepOther, keepHeartbeat)
    ensures dropped == Dropped(events, keepOther, keepHeartbeat)
  {
    hide KeepsAt, Retain, Dropped;
    NothingAfter(events, keepOther, keepHeartbeat);
    out, dropped := [], [];
    var keep := MarkKept(events, keepOther, keepHeartbeat);
    var index := 0;
    assert events[0..] == events;
    while index < |events|
      invariant 0 <= index <= |events|
      invariant forall k :: 0 <= k < |events| ==> keep[k] == KeepsAt(events, k, keepOther, keepHeartbeat)
      invariant out + Retain(events[index..], keepOther, keepHeartbeat) == Retain(events, keepOther, keepHeartbeat)
      invariant dropped + Dropped(events[index..], keepOther, keepHeartbeat) == Dropped(events, keepOther, keepHeartbeat)
    {
      RetainAt(events, index, keepOther, keepHeartbeat);
      ghost var e := [events[index]];
      ghost var kept, left := Retain(events[index + 1..], keepOther, keepHeartbeat), Dropped(events[index + 1..], keepOther, keepHeartbeat);
      if keep[index] {
        assert out + (e + kept) == (out + e) + kept;
        out := out + [events[index]];
      } else {
        assert (dropped + e) + left == dropped + (e + left);
        dropped := dropped + [events[index]];
      }
      index := index + 1;
    }
  }

  // ---------- Duplicates ----------

  /** The bytes of the events' lines. */
  function Bytes(events: seq<Event>): nat {
    if events == [] then 0 else Bytes(events[..|events| - 1]) + events[|events| - 1].size
  }

  lemma {:induction false} BytesConcat(a: seq<Event>, b: seq<Event>)
    ensures Bytes(a + b) == Bytes(a) + Bytes(b)
  {
    if b == [] {
      assert a + b == a;
    } else {
      assert (a + b)[..|a + b| - 1] == a + b[..|b| - 1];
      BytesConcat(a, b[..|b| - 1]);
    }
  }

  lemma BytesFrom(events: seq<Event>, k: nat)
    requires k < |events|
    ensures Bytes(events[k..]) == events[k].size + Bytes(events[k + 1..])
  {
    assert events[k..] == [events[k]] + events[k + 1..];
    BytesConcat([events[k]], events[k + 1..]);
    assert [events[k]][..0] == [];
  }

  /** An event with the same key stands wholly within the tail of the file; a line cut by the tail does not parse. */
  ghost predicate IsDuplicate(events: seq<Event>, e: Event) {
    exists k :: 0 <= k < |events| && InTail(events, k) && events[k].key == e.key
  }

  /** The lines from the k-th on take up no more than the bytes that are read. */
  ghost predicate InTail(events: seq<Event>, k: nat)
    requires k <= |events|
  {
    Bytes(events[k..]) <= TAIL_BYTES
  }

  lemma {:induction false} TailIsFromHere(events: seq<Event>, j: nat, k: nat)
    requires j <= k <= |events|
    ensures Bytes(events[k..]) <= Bytes(events[j..])
    decreases k - j
  {
    if j < k {
      BytesFrom(events, j);
      TailIsFromHere(events, j + 1, k);
    }
  }

  /** isImmediateDuplicateEvent: the whole lines of the tail, from the last one back. */
  method FindDuplicate(events: seq<Event>, e: Event) returns (found: bool)
    ensures found <==> IsDuplicate(events, e)
  {
    var index := |events|;
    var left: int := TAIL_BYTES;
    assert events[|events|..] == [];
    hide Bytes;
    NoBytes();
    while index > 0 && events[index - 1].size <= left
      invariant 0 <= index <= |events|
      invariant left == TAIL_BYTES - Bytes(events[index..]) && left >= 0
      invariant forall k :: index <= k < |events| ==> events[k].key != e.key
    {
      BytesFrom(events, index - 1);
      index, left := index - 1, left - events[index - 1].size;
      if events[index].key == e.key {
        return true;
      }
    }
    forall k | 0 <= k < index ensures !InTail(events, k) {
      BytesFrom(events, index - 1);
      TailIsFromHere(events, k, index - 1);
    }
    return false;
  }

  lemma NoBytes()
    ensures Bytes([]) == 0
  {}

  // ---------- One append, as a function of the files ----------

  /** The most bytes a line of events.jsonl may have, newline included, for ReadEvents' scanner to get past it. */
  const MAX_LINE := MAX_SCAN_TOKEN

  predicate Fits(e: Event) {
    e.size <= MAX_LINE
  }

  predicate AllFit(events: seq<Event>) {
    forall k :: 0 <= k < |events| ==> Fits(events[k])
  }

  /** The room's files and its cached reading; `cache` stays None when Redis is off. */
  datatype Room = Room(events: seq<Event>, cache: Option<seq<Event>>, count: nat)

  /** What ReadEvents returns; None is the scanner's "token too long" error. */
  function Reading(room: Room): Option<seq<Event>> {
    if room.cache.Some? then room.cache else if AllFit(room.events) then Some(room.events) else None
  }

  function AfterRead(room: Room, redis: bool): Room {
    if redis then room.(cache := Reading(room)) else room
  }

  function WithEvent(room: Room, e: Event): Room {
    room.(events := room.events + [e])
  }

  /** The file after pruneRoomEvents with a reading of it. */
  function FileAfterPrune(file: seq<Event>, seen: seq<Event>): seq<Event> {
    if |Pruned(seen)| == |seen| then file else Pruned(seen)
  }

  /** AppendEvent writes the event and returns an error: the room cannot be read afterwards. */
  ghost predicate AppendFails(room: Room, e: Event) {
    !IsDuplicate(room.events, e) && Reading(WithEvent(room, e)).None?
  }

  ghost function AfterAppend(room: Room, e: Event, redis: bool): Room {
    if IsDuplicate(room.events, e) then room
    else
      match Reading(WithEvent(room, e))
      case None => WithEvent(room, e)
      case Some(seen) =>
        var file := FileAfterPrune(room.events + [e], seen);
        Room(file, None, |NonHeartbeats(if redis then seen else file)|)
  }

  lemma {:induction false} PrunedFits(events: seq<Event>)
    requires AllFit(events)
    ensures AllFit(Pruned(events))
  {
    if events != [] {
      PrunedFits(events[1..]);
    }
  }

  // ---------- The store ----------

  class LocalRoom {
    const redis: bool
    var room: Room
    var locked: bool
    var histories: map<string, seq<Event>>

    ghost predicate Valid()
      reads this
    {
      !redis ==> room.cache == None
    }

    constructor (redis: bool)
      ensures Valid() && this.redis == redis && !locked
      ensures room == Room([], None, 0) && histories == map[]
    {
      this.redis := redis;
      room := Room([], None, 0);
      locked := false;
      histories := map[];
    }

    /** ReadEvents; None is its error. */
    method ReadEvents() returns (events: Option<seq<Event>>)
      requires Valid()
      modifies this`room
      ensures Valid() && events == old(Reading(room)) && room == AfterRead(old(room), redis)
    {
      if redis && room.cache.Some? {
        return room.cache;
      }
      var index := 0;
      while index < |room.events|
        invariant 0 <= index <= |room.events|
        invariant forall k :: 0 <= k < index ==> Fits(room.events[k])
        invariant room == old(room)
      {
        if room.events[index].size > MAX_LINE {
          return None;
        }
        index := index + 1;
      }
      events := Some(room.events);
      if redis {
        room := room.(cache := events);
      }
    }

    /** saveHistoryArchiveRecord: takes the room lock, which is not re-entrant. */
    method SaveHistory(id: string, events: seq<Event>)
      requires !locked
      modifies this`locked, this`histories
      ensures !locked
      ensures histories == if id in old(histories) then old(histories) else old(histories)[id := events]
    {
      locked := true;
      if id !in histories {
        histories := histories[id := events];
      }
      locked := false;
    }

    /** savePrunedHistory under the room lock: it must have nothing to save. */
    method SavePruned(dropped: seq<Event>)
      requires locked
      requires NonHeartbeats(dropped) == []
      ensures locked
    {
      var visible := DisplayEvents(dropped);
      DisplayOfHeartbeats(dropped);
      if |visible| == 0 {
        return;
      }
      // A second withRoomLock here would wait for itself.
      assert false;
    }

    /** pruneRoomEvents; ok is false when the room cannot be read. */
    method PruneEvents() returns (ok: bool)
      requires Valid() && locked
      modifies this`room
      ensures Valid()
      ensures ok <==> old(Reading(room)).Some?
      ensures room == if ok
                      then AfterRead(old(room), redis).(events := FileAfterPrune(old(room).events, old(Reading(room)).value))
                      else old(room)
    {
      var events := ReadEvents();
      if events.None? {
        return false;
      }
      var pruned, dropped := RetainRecent(events.value, 0, RETAIN_HEARTBEATS);
      if |pruned| == |events.value| {
        return true;
      }
      DroppedAreHeartbeats(events.value, RETAIN_HEARTBEATS);
      SavePruned(dropped);
      room := room.(events := pruned);
      return true;
    }

    /** refreshRoomIndex, for the count it keeps. */
    method RefreshIndex() returns (ok: bool)
      requires Valid() && locked
      modifies this`room
      ensures Valid()
      ensures ok <==> old(Reading(room)).Some?
      ensures room == if ok then AfterRead(old(room), redis).(count := |NonHeartbeats(old(Reading(room)).value)|) else old(room)
    {
      var events := ReadEvents();
      if events.None? {
        return false;
      }
      var count := CountIndexed(events.value);
      room := room.(count := count);
      return true;
    }

    /** AppendEvent; on failure the event is in the file all the same. No run reaches the nested lock of SavePruned. */
    method AppendEvent(e: Event) returns (ok: bool)
      requires Valid() && !locked
      modifies this`room, this`locked
      ensures Valid() && !locked
      ensures ok <==> !AppendFails(old(room), e)
      ensures room == AfterAppend(old(room), e, redis)
    {
      locked := true;
      var duplicate := FindDuplicate(room.events, e);
      if duplicate {
        locked := false;
        return true;
      }
      room := WithEvent(room, e);
      ok := PruneEvents();
      if !ok {
        locked := false;
        return;
      }
      if !redis {
        PrunedFits(old(room).events + [e]);
      }
      ok := RefreshIndex();
      room := room.(cache := None);
      locked := false;
    }
  }

  /** countIndexedLiveEvents. */
  method CountIndexed(events: seq<Event>) returns (count: nat)
    ensures count == |NonHeartbeats(events)|
  {
    count := 0;
    assert events[..|events|] == events;
    for index := 0 to |events|
      invariant count == |NonHeartbeats(events[..index])|
    {
      assert events[..index + 1] == events[..index] + [events[index]];
      CountsConcat(events[..index], [events[index]]);
      assert [events[index]][1..] == [];
      if !events[index].kind.Heartbeat? {
        count := count + 1;
      }
    }
  }

  /** archiveDisplayEvents. */
  function DisplayEvents(events: seq<Event>): seq<Event> {
    if events == [] then []
    else (if events[0].kind.Heartbeat? || events[0].kind.ArchiveNotice? then [] else [events[0]])
         + DisplayEvents(events[1..])
  }

  /** Archives show everything but heartbeats and archive notices. */
  lemma {:induction false} DisplayIsExact(events: seq<Event>)
    ensures forall e :: e in DisplayEvents(events) <==> e in events && e.kind != Heartbeat && e.kind != ArchiveNotice
  {
    if events != [] {
      DisplayIsExact(events[1..]);
      assert events == [events[0]] + events[1..];
    }
  }

  /** They show it in order, each event as often as it stands there. */
  lemma {:induction false} DisplayKeepsOrder(events: seq<Event>, more: seq<Event>)
    ensures DisplayEvents(events + more) == DisplayEvents(events) + DisplayEvents(more)
  {
    if events == [] {
      assert events + more == more;
    } else {
      var first, rest := events[0], events[1..];
      var head := if first.kind.Heartbeat? || first.kind.ArchiveNotice? then [] else [first];
      DisplayKeepsOrder(rest, more);
      assert (events + more)[1..] == rest + more;
      assert head + (DisplayEvents(rest) + DisplayEvents(more)) == (head + DisplayEvents(rest)) + DisplayEvents(more);
    }
  }

  lemma {:induction false} DisplayOfHeartbeats(events: seq<Event>)
    requires NonHeartbeats(events) == []
    ensures DisplayEvents(events) == []
  {
    if events != [] {
      DisplayOfHeartbeats(events[1..]);
    }
  }

  // ---------- Whole runs ----------

  datatype Op = Append(e: Event) | Read | Expire

  ghost function Step(room: Room, op: Op, redis: bool): Room {
    match op
    case Append(e) => AfterAppend(room, e, redis)
    case Read => AfterRead(room, redis)
    case Expire => room.(cache := None)
  }

  /** The room after a run, latest operation last. */
  ghost function Run(ops: seq<Op>, redis: bool): Room {
    if ops == [] then Room([], None, 0)
    else Step(Run(ops[..|ops| - 1], redis), ops[|ops| - 1], redis)
  }

  /** The events a run accepted, that is, wrote and did not skip as duplicates. */
  ghost function Accepted(ops: seq<Op>, redis: bool): seq<Event> {
    if ops == [] then []
    else
      var init, op := ops[..|ops| - 1], ops[|ops| - 1];
      Accepted(init, redis) + if op.Append? && !IsDuplicate(Run(init, redis).events, op.e) then [op.e] else []
  }

  /** The events before the first line that is too long, and those from it on. */
  function Sound(events: seq<Event>): seq<Event> {
    if events == [] || !Fits(events[0]) then [] else [events[0]] + Sound(events[1..])
  }

  function Beyond(events: seq<Event>): seq<Event> {
    if events == [] || !Fits(events[0]) then events else Beyond(events[1..])
  }

  lemma FitsConcat(a: seq<Event>, b: seq<Event>)
    ensures AllFit(a + b) <==> AllFit(a) && AllFit(b)
  {
    if AllFit(a + b) {
      forall k | 0 <= k < |a| ensures Fits(a[k]) { assert (a + b)[k] == a[k]; }
      forall k | 0 <= k < |b| ensures Fits(b[k]) { assert (a + b)[|a| + k] == b[k]; }
    }
  }

  lemma {:induction false} SoundSplits(events: seq<Event>)
    ensures events == Sound(events) + Beyond(events) && AllFit(Sound(events))
    ensures Beyond(events) == [] <==> AllFit(events)
    ensures Beyond(events) != [] ==> !Fits(Beyond(events)[0])
  {
    hide Fits;
    if events != [] && Fits(events[0]) {
      var first, rest := [events[0]], events[1..];
      SoundSplits(rest);
      assert events == first + rest && AllFit(first);
      assert Sound(events) == first + Sound(rest) && Beyond(events) == Beyond(rest);
      FitsConcat(first, rest);
      FitsConcat(first, Sound(rest));
    }
  }

  lemma {:induction false} SoundSnoc(events: seq<Event>, e: Event)
    ensures Sound(events + [e]) == if AllFit(events) && Fits(e) then Sound(events) + [e] else Sound(events)
    ensures Beyond(events + [e]) == if AllFit(events) && Fits(e) then [] else Beyond(events) + [e]
  {
    if events == [] {
      assert events + [e] == [e];
    } else {
      assert (events + [e])[1..] == events[1..] + [e];
      if Fits(events[0]) {
        SoundSnoc(events[1..], e);
        assert AllFit(events) <==> AllFit(events[1..]) by {
          SoundSplits(events);
          SoundSplits(events[1..]);
        }
      }
    }
  }

  /** With Redis off the file is the pruned history up to the first line that is too long, and everything from there on. */
  lemma {:induction false} FileIsPrunedHistory(ops: seq<Op>)
    ensures var room, accepted := Run(ops, false), Accepted(ops, false);
            && room.events == Pruned(Sound(accepted)) + Beyond(accepted)
            && room.cache == None && room.count == |NonHeartbeats(Sound(accepted))|
            && (AllFit(room.events) <==> AllFit(accepted))
  {
    if ops == [] {
    } else {
      var init, op := ops[..|ops| - 1], ops[|ops| - 1];
      FileIsPrunedHistory(init);
      var before, accepted := Run(init, false), Accepted(init, false);
      if op.Append? && !IsDuplicate(before.events, op.e) {
        AppendOff(before, accepted, op.e);
      } else {
        assert Accepted(ops, false) == accepted;
      }
    }
  }

  lemma AppendOff(before: Room, accepted: seq<Event>, e: Event)
    requires before.events == Pruned(Sound(accepted)) + Beyond(accepted) && before.cache == None
    requires before.count == |NonHeartbeats(Sound(accepted))| && (AllFit(before.events) <==> AllFit(accepted))
    requires !IsDuplicate(before.events, e)
    ensures var room, all := AfterAppend(before, e, false), accepted + [e];
            && room.events == Pruned(Sound(all)) + Beyond(all)
            && room.cache == None && room.count == |NonHeartbeats(Sound(all))|
            && (AllFit(room.events) <==> AllFit(all))
  {
    hide IsDuplicate, Pruned, Sound, Beyond, Fits;
    SoundSplits(accepted);
    SoundSnoc(accepted, e);
    FitsConcat(before.events, [e]);
    FitsConcat(accepted, [e]);
    var all := accepted + [e];
    if AllFit(all) {
      SoundSplits(all);
      PruneAfterAppend(Sound(accepted), e);
      PruneUnlessSame(before.events + [e]);
      PrunedContents(Sound(all));
      PrunedFits(Sound(all));
      assert Sound(all) == Sound(accepted) + [e] && Beyond(all) == [];
      assert before.events == Pruned(Sound(accepted));
    } else {
      assert Pruned(Sound(accepted)) + (Beyond(accepted) + [e]) == before.events + [e];
    }
  }

  lemma PruneUnlessSame(events: seq<Event>)
    ensures FileAfterPrune(events, events) == Pruned(events)
  {
    RetainSplits(events, 0, RETAIN_HEARTBEATS);
  }

  /** With Redis off, every run of appends and reads. The file's non-heartbeats are always the accepted ones in append
      order. The room can be read, its heartbeats are the latest 20 accepted, and the index counts its non-heartbeats,
      all together if and only if no accepted line was too long; otherwise pruning and counting stopped at the first such
      line, and each of the two is right exactly as stated. */
  lemma RunKeepsEveryMessage(ops: seq<Op>)
    ensures var room, accepted := Run(ops, false), Accepted(ops, false);
            && NonHeartbeats(room.events) == NonHeartbeats(accepted)
            && Heartbeats(room.events)
               == Last(Heartbeats(Sound(accepted)), RETAIN_HEARTBEATS) + Heartbeats(Beyond(accepted))
            && room.count == |NonHeartbeats(Sound(accepted))|
            && (Reading(room).Some? <==> AllFit(accepted))
            && (Heartbeats(room.events) == Last(Heartbeats(accepted), RETAIN_HEARTBEATS) <==>
                  |Heartbeats(room.events)| <= RETAIN_HEARTBEATS)
            && (room.count == |NonHeartbeats(accepted)| <==> NonHeartbeats(Beyond(accepted)) == [])
    ensures var room, accepted := Run(ops, false), Accepted(ops, false);
            AllFit(accepted) <==>
              && Reading(room).Some?
              && Heartbeats(room.events) == Last(Heartbeats(accepted), RETAIN_HEARTBEATS)
              && room.count == |NonHeartbeats(accepted)|
  {
    hide Run, Accepted, Pruned, Sound, Beyond, Fits;
    var accepted := Accepted(ops, false);
    var sound, beyond := Sound(accepted), Beyond(accepted);
    FileIsPrunedHistory(ops);
    SoundSplits(accepted);
    PrunedContents(sound);
    CountsConcat(Pruned(sound), beyond);
    CountsConcat(sound, beyond);
    LastOfConcat(Heartbeats(sound), Heartbeats(beyond), RETAIN_HEARTBEATS);
    if AllFit(accepted) {
      assert Heartbeats(sound) + [] == Heartbeats(sound);
      assert Heartbeats(beyond) == [] == NonHeartbeats(beyond);
    }
  }

  lemma LastOfConcat(a: seq<Event>, b: seq<Event>, n: nat)
    ensures Last(a, n) + b == Last(a + b, n) <==> |Last(a, n) + b| <= n
    ensures |Last(a, n)| <= n
  {}

  // ---------- A line that is too long ----------

  /** Once the room cannot be read it never can be again: whatever follows, every append fails and is in the file all the
      same, nothing is pruned any more, and the count stands still. With Redis on or off. */
  lemma {:induction false} UnreadableForEver(ops: seq<Op>, more: seq<Op>, redis: bool)
    requires Run(ops, redis).cache == None && !AllFit(Run(ops, redis).events)
    ensures var before, after := Run(ops, redis), Run(ops + more, redis);
            && after.cache == None && !AllFit(after.events) && Reading(after).None?
            && before.events <= after.events && after.count == before.count
            && forall e :: !IsDuplicate(after.events, e) ==> AppendFails(after, e)
    decreases |more|
  {
    hide IsDuplicate, Fits, Pruned;
    if more == [] {
      assert ops + more == ops;
    } else {
      var init, last := more[..|more| - 1], more[|more| - 1];
      UnreadableForEver(ops, init, redis);
      assert ops + more == (ops + init) + [last];
      assert (ops + more)[..|ops + more| - 1] == ops + init;
      if last.Append? {
        FitsConcat(Run(ops + init, redis).events, [last.e]);
      }
    }
    var after := Run(ops + more, redis);
    forall e | !IsDuplicate(after.events, e) ensures AppendFails(after, e) {
      FitsConcat(after.events, [e]);
    }
  }

  /** The failing run, with Redis on or off: the first message of a room has a line of 65537 bytes. It is in the file,
      AppendEvent returns an error, and the index does not count it. */
  lemma OverlongRun(redis: bool)
    ensures var message := Event(Message, "m", MAX_LINE + 1, None);
            var room := Run([Append(message)], redis);
            && AppendFails(Run([], redis), message)
            && room.events == [message] && room.count == 0 && Reading(room).None? && room.cache == None
  {
    var message := Event(Message, "m", MAX_LINE + 1, None);
    var ops := [Append(message)];
    assert ops[..|ops| - 1] == [];
    assert [] + [message] == [message];
    assert !Fits([message][0]);
  }

  // ---------- Redis on ----------

  /** What holds between operations with Redis on: a cached reading is the file and fits, and a file that can be read has
      at most one heartbeat too many. */
  ghost predicate Coherent(room: Room) {
    && (room.cache.Some? ==> room.cache.value == room.events && AllFit(room.events))
    && (AllFit(room.events) ==> |Heartbeats(room.events)| <= RETAIN_HEARTBEATS + 1)
  }

  lemma PrunedDropsIffTooManyHeartbeats(events: seq<Event>)
    ensures |Pruned(events)| == |events| <==> |Heartbeats(events)| <= RETAIN_HEARTBEATS
  {
    RetainSplits(events, 0, RETAIN_HEARTBEATS);
    PrunedContents(events);
    Partition(events);
    Partition(Pruned(events));
  }

  lemma {:induction false} Partition(events: seq<Event>)
    ensures |events| == |Heartbeats(events)| + |NonHeartbeats(events)|
  {
    if events != [] {
      Partition(events[1..]);
    }
  }

  lemma CoherentStep(room: Room, op: Op)
    requires Coherent(room)
    ensures Coherent(Step(room, op, true))
  {
    hide Fits, IsDuplicate, Pruned;
    if op.Append? && !IsDuplicate(room.events, op.e) {
      FitsConcat(room.events, [op.e]);
      CountsConcat(room.events, [op.e]);
      assert [op.e][1..] == [];
      if Reading(WithEvent(room, op.e)).Some? {
        var seen := Reading(WithEvent(room, op.e)).value;
        PrunedDropsIffTooManyHeartbeats(seen);
        PrunedContents(seen);
        PrunedFits(seen);
      }
    }
  }

  /** Between the operations of every run: a cached reading is the file; the room cannot be read exactly when a line of
      the file is too long. */
  lemma {:induction false} RunsAreCoherent(ops: seq<Op>)
    ensures Coherent(Run(ops, true))
    ensures Reading(Run(ops, true)).None? <==> !AllFit(Run(ops, true).events)
    ensures !AllFit(Run(ops, true).events) ==> Run(ops, true).cache == None
  {
    if ops != [] {
      RunsAreCoherent(ops[..|ops| - 1]);
      CoherentStep(Run(ops[..|ops| - 1], true), ops[|ops| - 1]);
    }
  }

  /** The guard of the losing branch: a cached reading that holds more heartbeats than are kept. */
  predicate CacheForcesPrune(room: Room) {
    room.cache.Some? && |Heartbeats(room.cache.value)| > RETAIN_HEARTBEATS
  }

  /** With Redis on, after any run, appending a message keeps it if and only if no cached reading forces a prune: otherwise
      the prune writes the reading, taken before the append, over the file. The append reports an error exactly when there
      is no cached reading and a line of the file, the new one included, is too long; the count then stands still. */
  lemma AppendKeepsMessageIff(ops: seq<Op>, e: Event)
    requires !e.kind.Heartbeat? && !IsDuplicate(Run(ops, true).events, e)
    ensures var before, after := Run(ops, true), Run(ops + [Append(e)], true);
            && (NonHeartbeats(after.events) == NonHeartbeats(before.events) + [e] <==> !CacheForcesPrune(before))
            && (CacheForcesPrune(before) ==> NonHeartbeats(after.events) == NonHeartbeats(before.events))
            && (AppendFails(before, e) <==> before.cache.None? && !(AllFit(before.events) && Fits(e)))
            && (AppendFails(before, e) ==> after.events == before.events + [e] && after.count == before.count)
            && (Reading(after).Some? <==> CacheForcesPrune(before) || (AllFit(before.events) && Fits(e)))
  {
    hide Run, Accepted, IsDuplicate, Pruned, Fits;
    var before, after := Run(ops, true), Run(ops + [Append(e)], true);
    RunSnoc(ops, Append(e));
    RunsAreCoherent(ops);
    FitsConcat(before.events, [e]);
    assert AllFit([e]) <==> Fits(e) by { assert [e][0] == e; }
    CountsConcat(before.events, [e]);
    assert [e][1..] == [];
    if !AppendFails(before, e) {
      var seen := Reading(WithEvent(before, e)).value;
      PrunedDropsIffTooManyHeartbeats(seen);
      PrunedContents(seen);
      PrunedFits(seen);
    }
  }

  /** With Redis on, after any run, the index counts the non-heartbeats of the file after an append if and only if the event was
      a heartbeat, no reading was cached, or the cached reading forced a prune, which loses the event: otherwise the count
      is taken from the reading made before the append and misses it. */
  lemma AppendCountsIff(ops: seq<Op>, e: Event)
    requires !IsDuplicate(Run(ops, true).events, e) && !AppendFails(Run(ops, true), e)
    ensures var before, after := Run(ops, true), Run(ops + [Append(e)], true);
            after.count == |NonHeartbeats(after.events)| <==>
              e.kind == Heartbeat || before.cache == None || CacheForcesPrune(before)
  {
    hide Run, Accepted, IsDuplicate, Pruned, Fits;
    var before := Run(ops, true);
    RunSnoc(ops, Append(e));
    RunsAreCoherent(ops);
    CountsConcat(before.events, [e]);
    assert [e][1..] == [];
    var seen := Reading(WithEvent(before, e)).value;
    PrunedDropsIffTooManyHeartbeats(seen);
    PrunedContents(seen);
  }

  /** A losing run with Redis on: from any run that left 20 heartbeats, read, append one more, read, and append
      a message. The message is accepted and is not in the file. */
  lemma LosingRun(ops: seq<Op>, beat: Event, message: Event)
    requires var room := Run(ops, true);
             |Heartbeats(room.events)| == RETAIN_HEARTBEATS && AllFit(room.events + [beat]) && !IsDuplicate(room.events, beat)
    requires !IsDuplicate(Run(ops, true).events + [beat], message)
    requires beat.kind.Heartbeat? && !message.kind.Heartbeat?
    ensures var longer := ops + [Read] + [Append(beat)] + [Read];
            && Accepted(longer + [Append(message)], true) == Accepted(longer, true) + [message]
            && NonHeartbeats(Run(longer + [Append(message)], true).events) == NonHeartbeats(Run(ops, true).events)
  {
    hide Retain, Heartbeats, NonHeartbeats, IsDuplicate;
    var room := Run(ops, true);
    RunsAreCoherent(ops);
    var ops1 := ops + [Read];
    var ops2 := ops1 + [Append(beat)];
    var ops3 := ops2 + [Read];
    RunSnoc(ops, Read);
    RunSnoc(ops1, Append(beat));
    RunSnoc(ops2, Read);
    RunSnoc(ops3, Append(message));
    PrunedDropsIffTooManyHeartbeats(room.events);
    CountsConcat(room.events, [beat]);
    FitsConcat(room.events, [beat]);
    OneBeat(beat);
    assert Run(ops3, true).cache == Some(room.events + [beat]);
    AppendKeepsMessageIff(ops3, message);
  }

  lemma OneBeat(beat: Event)
    requires beat.kind.Heartbeat?
    ensures Heartbeats([beat]) == [beat] && NonHeartbeats([beat]) == []
  {
    assert [beat][1..] == [];
  }

  lemma RunSnoc(ops: seq<Op>, op: Op)
    ensures Run(ops + [op], true) == Step(Run(ops, true), op, true)
    ensures Accepted(ops + [op], true)
         == Accepted(ops, true) + if op.Append? && !IsDuplicate(Run(ops, true).events, op.e) then [op.e] else []
  {
    assert (ops + [op])[..|ops + [op]| - 1] == ops;
  }

  /** The k-th of a run of heartbeats with keys of their own. */
  function Beat(k: nat): Event {
    Event(Heartbeat, seq(k + 1, _ => 'h'), 1, None)
  }

  lemma BeatKey(k: nat)
    ensures |Beat(k).key| == k + 1 && Beat(k).kind.Heartbeat? && Fits(Beat(k))
  {}

  function Beats(n: nat): seq<Op> {
    if n == 0 then [] else Beats(n - 1) + [Append(Beat(n - 1))]
  }

  lemma EmptyRun()
    ensures Run([], true) == Room([], None, 0) && Heartbeats([]) == []
  {}

  /** Such runs exist: 20 heartbeats appended to an empty room. */
  lemma {:induction false} BeatsFillTheRoom(n: nat)
    requires n <= RETAIN_HEARTBEATS
    ensures |Heartbeats(Run(Beats(n), true).events)| == n && Run(Beats(n), true).cache == None
    ensures forall e <- Run(Beats(n), true).events :: |e.key| <= n
    ensures AllFit(Run(Beats(n), true).events)
  {
    hide Run, Pruned, Heartbeats, NonHeartbeats, Bytes, Beat, Coherent;
    if n == 0 {
      EmptyRun();
    } else {
      var beats, beat := Beats(n - 1), Beat(n - 1);
      BeatsFillTheRoom(n - 1);
      BeatKey(n - 1);
      AppendBeat(beats, beat);
    }
  }

  lemma AppendBeat(ops: seq<Op>, beat: Event)
    requires var room := Run(ops, true);
             && room.cache == None && |Heartbeats(room.events)| < RETAIN_HEARTBEATS && AllFit(room.events)
             && forall e <- room.events :: |e.key| < |beat.key|
    requires beat.kind.Heartbeat? && Fits(beat)
    ensures var room := Run(ops + [Append(beat)], true);
            room.cache == None && room.events == Run(ops, true).events + [beat]
            && |Heartbeats(room.events)| == |Heartbeats(Run(ops, true).events)| + 1 && AllFit(room.events)
  {
    hide Run, Pruned, Heartbeats, NonHeartbeats, Bytes;
    var room := Run(ops, true);
    RunSnoc(ops, Append(beat));
    CountsConcat(room.events, [beat]);
    OneBeat(beat);
    FitsConcat(room.events, [beat]);
    PrunedDropsIffTooManyHeartbeats(room.events + [beat]);
    assert !IsDuplicate(room.events, beat);
  }

  /** The losing run with actual events: heartbeats with keys "h", "hh", and so on, and one message. */
  lemma ConcreteLosingRun()
    ensures var message := Event(Message, seq(RETAIN_HEARTBEATS + 2, _ => 'm'), 1, None);
            var longer := Beats(RETAIN_HEARTBEATS) + [Read] + [Append(Beat(RETAIN_HEARTBEATS))] + [Read];
            && Accepted(longer + [Append(message)], true) == Accepted(longer, true) + [message]
            && |Heartbeats(Run(Beats(RETAIN_HEARTBEATS), true).events)| == RETAIN_HEARTBEATS
            && NonHeartbeats(Run(longer + [Append(message)], true).events)
               == NonHeartbeats(Run(Beats(RETAIN_HEARTBEATS), true).events)
  {
    hide Run, Heartbeats, NonHeartbeats, Bytes, Beat, Beats, Accepted;
    var message := Event(Message, seq(RETAIN_HEARTBEATS + 2, _ => 'm'), 1, None);
    BeatsFillTheRoom(RETAIN_HEARTBEATS);
    BeatKey(RETAIN_HEARTBEATS);
    FitsConcat(Run(Beats(RETAIN_HEARTBEATS), true).events, [Beat(RETAIN_HEARTBEATS)]);
    LosingRun(Beats(RETAIN_HEARTBEATS), Beat(RETAIN_HEARTBEATS), message);
  }
}
