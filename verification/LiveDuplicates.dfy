/** What the duplicate test of a live room's append guarantees: exactly which appends change nothing, and where two events with
    one key can still come to stand in a file (internal/aip2p/live/store.go:220-297). */
module LiveDuplicates {
  import opened LiveStore
  import opened Options
  import opened Text

  /** AppendEvent changes nothing if and only if an event with the same key stands in the file with no more than 262144 bytes
      from its line to the end. */
  lemma AppendIsIdle(room: Room, e: Event, redis: bool)
    ensures AfterAppend(room, e, redis) == room <==>
              exists k :: 0 <= k < |room.events| && room.events[k].key == e.key && Bytes(room.events[k..]) <= 262144
  {
    hide Bytes, Pruned, Fits;
    if IsDuplicate(room.events, e) {
      var k :| 0 <= k < |room.events| && InTail(room.events, k) && room.events[k].key == e.key;
    } else {
      forall k | 0 <= k < |room.events| && room.events[k].key == e.key ensures Bytes(room.events[k..]) > 262144 {
        assert !InTail(room.events, k);
      }
      FreshAppendChanges(room, e, redis);
    }
  }

  /** Appending a duplicate never fails, not even in a room that cannot be read. */
  lemma DuplicateSucceeds(room: Room, e: Event, k: nat)
    requires k < |room.events| && room.events[k].key == e.key && Bytes(room.events[k..]) <= 262144
    ensures !AppendFails(room, e)
  {
    assert InTail(room.events, k);
  }

  lemma FreshAppendChanges(room: Room, e: Event, redis: bool)
    requires !IsDuplicate(room.events, e)
    ensures AfterAppend(room, e, redis) != room
  {
    hide Pruned, Fits, Bytes;
    var all := room.events + [e];
    if room.cache.None? && AllFit(all) {
      PrunedEndsWith(room.events, e);
      FitsConcat(room.events, [e]);
      assert [e][0] == e;
      LastIsInTail(room.events, e);
      assert e.size <= 262144 by { assert Fits(e); SmallLines(e); }
    }
  }

  lemma SmallLines(e: Event)
    ensures Fits(e) ==> e.size <= 262144
  {}

  /** The newest event always survives pruning. */
  lemma {:induction false} PrunedEndsWith(events: seq<Event>, e: Event)
    ensures var out := Pruned(events + [e]); out != [] && out[|out| - 1] == e
  {
    var all := events + [e];
    if events == [] {
      var none := all[1..];
      assert all == [e] && none == [];
      assert KeepsFirst(all, 0, RETAIN_HEARTBEATS);
      assert Pruned(all) == [e] + Retain(none, 0, RETAIN_HEARTBEATS);
    } else {
      assert all[1..] == events[1..] + [e];
      PrunedEndsWith(events[1..], e);
      var rest := Pruned(all[1..]);
      assert Pruned(all) == rest || Pruned(all) == [all[0]] + rest;
    }
  }

  /** A file that ends in e, a line of at most 262144 bytes, has e in its tail. */
  lemma LastIsInTail(events: seq<Event>, e: Event)
    ensures events != [] && events[|events| - 1] == e && e.size <= 262144 ==> IsDuplicate(events, e)
  {
    if events != [] {
      var k := |events| - 1;
      BytesFrom(events, k);
      assert events[k + 1..] == [];
      assert InTail(events, k) <==> events[k].size <= 262144;
    }
  }

  /** Appending the same event twice in a row, when no cached reading forces a prune, is appending it once if and only if it was
      a duplicate already or its line is no longer than the bytes that are read. */
  lemma AppendingTwice(room: Room, e: Event, redis: bool)
    requires !CacheForcesPrune(room) && (room.cache.Some? ==> room.cache.value == room.events)
    ensures var once := AfterAppend(room, e, redis);
            AfterAppend(once, e, redis) == once <==> IsDuplicate(room.events, e) || e.size <= 262144
  {
    hide Pruned, Fits, Bytes;
    var once := AfterAppend(room, e, redis);
    if !IsDuplicate(room.events, e) {
      OnceEndsWith(room, e, redis);
      LastIsInTail(once.events, e);
      if e.size > 262144 {
        LongLineHidesAll(once.events, e);
        FreshAppendChanges(once, e, redis);
      }
    }
  }

  lemma OnceEndsWith(room: Room, e: Event, redis: bool)
    requires !CacheForcesPrune(room) && (room.cache.Some? ==> room.cache.value == room.events)
    requires !IsDuplicate(room.events, e)
    ensures var once := AfterAppend(room, e, redis).events; once != [] && once[|once| - 1] == e
  {
    hide Pruned, Fits, Bytes;
    PrunedEndsWith(room.events, e);
    if room.cache.Some? {
      PrunedDropsIffTooManyHeartbeats(room.events);
    }
  }

  /** Behind a line longer than the tail nothing is found. */
  lemma LongLineHidesAll(events: seq<Event>, e: Event)
    requires events != [] && events[|events| - 1].size > 262144
    ensures !IsDuplicate(events, e)
  {
    hide Bytes;
    var last := |events| - 1;
    BytesFrom(events, last);
    forall k | 0 <= k < |events| ensures !InTail(events, k) {
      TailIsFromHere(events, k, last);
    }
  }

  // ---------- Whole runs ----------

  ghost predicate DistinctKeys(events: seq<Event>) {
    forall i, j :: 0 <= i < j < |events| ==> events[i].key != events[j].key
  }

  lemma {:induction false} RetainPart(events: seq<Event>, keepOther: int, keepHeartbeat: int)
    ensures forall e :: e in Retain(events, keepOther, keepHeartbeat) ==> e in events
    ensures DistinctKeys(events) ==> DistinctKeys(Retain(events, keepOther, keepHeartbeat))
  {
    hide KeepsFirst;
    if events != [] {
      var rest := events[1..];
      RetainPart(rest, keepOther, keepHeartbeat);
      assert events == [events[0]] + rest;
      if DistinctKeys(events) {
        assert DistinctKeys(rest);
        var kept := Retain(rest, keepOther, keepHeartbeat);
        forall k | 0 <= k < |kept| ensures kept[k].key != events[0].key {
          assert kept[k] in rest;
          var j :| 0 <= j < |rest| && rest[j] == kept[k];
          assert events[j + 1] == rest[j];
        }
      }
    }
  }

  lemma AppendKeepsDistinct(room: Room, e: Event, redis: bool)
    requires DistinctKeys(room.events) && Bytes(room.events) <= TAIL_BYTES
    requires room.cache.Some? ==> room.cache.value == room.events
    ensures DistinctKeys(AfterAppend(room, e, redis).events)
  {
    hide Bytes, Fits, Retain;
    if !IsDuplicate(room.events, e) {
      var all := room.events + [e];
      forall k | 0 <= k < |room.events| ensures room.events[k].key != e.key {
        assert room.events[0..] == room.events;
        TailIsFromHere(room.events, 0, k);
        assert InTail(room.events, k);
      }
      assert DistinctKeys(all);
      RetainPart(all, 0, RETAIN_HEARTBEATS);
      RetainPart(room.events, 0, RETAIN_HEARTBEATS);
    }
  }

  lemma CacheIsFile(ops: seq<Op>, redis: bool)
    ensures Run(ops, redis).cache.Some? ==> Run(ops, redis).cache.value == Run(ops, redis).events
  {
    hide Run, Pruned, Sound, Beyond;
    if redis {
      RunsAreCoherent(ops);
    } else {
      FileIsPrunedHistory(ops);
    }
  }

  /** As long as the file stayed within the tail, no two of its events share a key, after any run, with Redis on or off. */
  lemma {:induction false} RunsKeepKeysDistinct(ops: seq<Op>, redis: bool)
    requires forall n :: 0 <= n < |ops| ==> Bytes(Run(ops[..n], redis).events) <= TAIL_BYTES
    ensures DistinctKeys(Run(ops, redis).events)
  {
    hide Bytes, AfterAppend;
    if ops != [] {
      var init, op := ops[..|ops| - 1], ops[|ops| - 1];
      forall n | 0 <= n < |init| ensures Bytes(Run(init[..n], redis).events) <= TAIL_BYTES {
        assert init[..n] == ops[..n];
      }
      RunsKeepKeysDistinct(init, redis);
      CacheIsFile(init, redis);
      if op.Append? {
        AppendKeepsDistinct(Run(init, redis), op.e, redis);
      }
    }
  }

  // ---------- Twins in the tail ----------

  /** A message, and heartbeats with keys of their own: the longest lines that can be read, and short ones. */
  const TWIN := Event(Message, "m", 1, None)

  function Long(k: nat): Event {
    Event(Heartbeat, seq(k + 2, _ => 'l'), MAX_LINE, None)
  }

  function Short(k: nat): Event {
    Event(Heartbeat, seq(k + 2, _ => 's'), 1, None)
  }

  function Longs(n: nat): (out: seq<Event>)
    ensures |out| == n && forall k :: 0 <= k < n ==> out[k] == Long(k)
  {
    seq(n, k requires 0 <= k < n => Long(k))
  }

  function Shorts(n: nat): (out: seq<Event>)
    ensures |out| == n && forall k :: 0 <= k < n ==> out[k] == Short(k)
  {
    seq(n, k requires 0 <= k < n => Short(k))
  }

  function Appends(events: seq<Event>): (ops: seq<Op>)
    ensures |ops| == |events| && forall k :: 0 <= k < |ops| ==> ops[k] == Append(events[k])
  {
    seq(|events|, k requires 0 <= k < |events| => Append(events[k]))
  }

  lemma AcceptedNext(h: seq<Event>, e: Event)
    requires Accepted(Appends(h), false) == h && AllFit(h) && Fits(e) && !IsDuplicate(Pruned(h), e)
    ensures Accepted(Appends(h + [e]), false) == h + [e] && AllFit(h + [e])
  {
    hide Run, Pruned, IsDuplicate, Fits;
    var ops := Appends(h + [e]);
    assert ops[..|ops| - 1] == Appends(h) && ops[|ops| - 1] == Append(e);
    FileOfHistory(Appends(h));
  }

  /** Without over-long lines the file is the pruned history. */
  lemma FileOfHistory(ops: seq<Op>)
    requires AllFit(Accepted(ops, false))
    ensures Run(ops, false).events == Pruned(Accepted(ops, false))
  {
    hide Run, Accepted, Pruned, Fits;
    var accepted := Accepted(ops, false);
    FileIsPrunedHistory(ops);
    SoundSplits(accepted);
    assert Sound(accepted) + [] == Sound(accepted);
    assert Pruned(accepted) + [] == Pruned(accepted);
  }

  lemma FreshKey(h: seq<Event>, e: Event)
    requires forall k :: 0 <= k < |h| ==> h[k].key != e.key
    ensures !IsDuplicate(Pruned(h), e)
  {
    hide Bytes, Retain;
    RetainPart(h, 0, RETAIN_HEARTBEATS);
    forall k | 0 <= k < |Pruned(h)| ensures Pruned(h)[k].key != e.key {
      assert Pruned(h)[k] in h;
    }
  }

  lemma {:induction false} LongsAccepted(n: nat)
    ensures Accepted(Appends([TWIN] + Longs(n)), false) == [TWIN] + Longs(n) && AllFit([TWIN] + Longs(n))
  {
    hide Pruned, IsDuplicate, Accepted;
    if n == 0 {
      assert [TWIN] + Longs(0) == [] + [TWIN];
      FreshKey([], TWIN);
      NothingAccepted();
      AcceptedNext([], TWIN);
    } else {
      LongsAccepted(n - 1);
      var h := [TWIN] + Longs(n - 1);
      assert [TWIN] + Longs(n) == h + [Long(n - 1)];
      assert forall k :: 0 <= k < |h| ==> |h[k].key| < |Long(n - 1).key|;
      FreshKey(h, Long(n - 1));
      AcceptedNext(h, Long(n - 1));
    }
  }

  lemma NothingAccepted()
    ensures Accepted(Appends([]), false) == []
  {}

  lemma {:induction false} BytesOfLongs(n: nat)
    ensures Bytes([TWIN] + Longs(n)) == 1 + n * MAX_LINE
  {
    hide Bytes;
    if n == 0 {
      assert [TWIN] + Longs(0) == [TWIN];
      BytesOfOne(TWIN);
    } else {
      BytesOfLongs(n - 1);
      assert [TWIN] + Longs(n) == [TWIN] + Longs(n - 1) + [Long(n - 1)];
      BytesConcat([TWIN] + Longs(n - 1), [Long(n - 1)]);
      BytesOfOne(Long(n - 1));
    }
  }

  lemma BytesOfOne(e: Event)
    ensures Bytes([e]) == e.size
  {
    var one := [e];
    assert one[..0] == [];
  }

  lemma {:induction false} CountsOfLongs(n: nat)
    ensures Heartbeats(Longs(n)) == Longs(n) && NonHeartbeats(Longs(n)) == []
  {
    hide Long;
    if n > 0 {
      CountsOfLongs(n - 1);
      assert Longs(n) == Longs(n - 1) + [Long(n - 1)];
      LongIsBeat(n - 1);
      CountsConcat(Longs(n - 1), [Long(n - 1)]);
      OneBeat(Long(n - 1));
    }
  }

  lemma LongIsBeat(k: nat)
    ensures Long(k).kind.Heartbeat?
  {}

  /** Behind four of the longest lines the message is out of the tail and is accepted again. */
  lemma TwinAccepted()
    ensures var h := [TWIN] + Longs(4) + [TWIN]; Accepted(Appends(h), false) == h && AllFit(h)
  {
    hide Accepted, Bytes, Pruned;
    var h := [TWIN] + Longs(4);
    LongsAccepted(4);
    BytesOfLongs(4);
    CountsOfLongs(4);
    CountsConcat([TWIN], Longs(4));
    OneMessage();
    PrunedDropsIffTooManyHeartbeats(h);
    PruneUnlessSame(h);
    assert Pruned(h) == h;
    forall k | 0 <= k < |h| && h[k].key == TWIN.key ensures !InTail(h, k) {
      assert h[0..] == h;
    }
    AcceptedNext(h, TWIN);
  }

  lemma OneMessage()
    ensures Heartbeats([TWIN]) == [] && NonHeartbeats([TWIN]) == [TWIN]
  {
    var one := [TWIN];
    assert one[1..] == [];
  }

  lemma {:induction false} ShortsAccepted(n: nat)
    ensures var h := [TWIN] + Longs(4) + [TWIN] + Shorts(n); Accepted(Appends(h), false) == h && AllFit(h)
  {
    hide Pruned, IsDuplicate, Accepted;
    var start := [TWIN] + Longs(4) + [TWIN];
    if n == 0 {
      TwinAccepted();
      assert start + Shorts(0) == start;
    } else {
      ShortsAccepted(n - 1);
      var h := start + Shorts(n - 1);
      assert start + Shorts(n) == h + [Short(n - 1)];
      assert forall k :: 0 <= k < |h| ==> h[k].key[0] != 's' || |h[k].key| < |Short(n - 1).key|;
      FreshKey(h, Short(n - 1));
      AcceptedNext(h, Short(n - 1));
    }
  }

  lemma {:induction false} CountsOfShorts(n: nat)
    ensures Heartbeats(Shorts(n)) == Shorts(n) && NonHeartbeats(Shorts(n)) == []
  {
    hide Short;
    if n > 0 {
      CountsOfShorts(n - 1);
      assert Shorts(n) == Shorts(n - 1) + [Short(n - 1)];
      ShortIsBeat(n - 1);
      CountsConcat(Shorts(n - 1), [Short(n - 1)]);
      OneBeat(Short(n - 1));
    }
  }

  lemma ShortIsBeat(k: nat)
    ensures Short(k).kind.Heartbeat? && Short(k).size == 1
  {}

  lemma {:induction false} BytesOfShorts(n: nat)
    ensures Bytes(Shorts(n)) == n
  {
    hide Bytes, Short;
    if n == 0 {
      NoBytes();
    } else {
      BytesOfShorts(n - 1);
      assert Shorts(n) == Shorts(n - 1) + [Short(n - 1)];
      BytesConcat(Shorts(n - 1), [Short(n - 1)]);
      BytesOfOne(Short(n - 1));
      ShortIsBeat(n - 1);
    }
  }

  lemma {:induction false} OthersStayDistinct(events: seq<Event>)
    ensures forall e :: e in NonHeartbeats(events) ==> e in events
    ensures DistinctKeys(events) ==> DistinctKeys(NonHeartbeats(events))
  {
    if events != [] {
      var rest := events[1..];
      OthersStayDistinct(rest);
      assert events == [events[0]] + rest;
      if DistinctKeys(events) {
        assert DistinctKeys(rest);
        var others := NonHeartbeats(rest);
        forall k | 0 <= k < |others| ensures others[k].key != events[0].key {
          assert others[k] in rest;
          var j :| 0 <= j < |rest| && rest[j] == others[k];
          assert events[j + 1] == rest[j];
        }
      }
    }
  }

  lemma {:induction false} BytesSplit(events: seq<Event>)
    ensures Bytes(events) == Bytes(Heartbeats(events)) + Bytes(NonHeartbeats(events))
    decreases |events|
  {
    hide Bytes, Heartbeats, NonHeartbeats;
    NoBytes();
    if events == [] {
      NothingSplit();
    } else {
      var init, last := events[..|events| - 1], [events[|events| - 1]];
      BytesSplit(init);
      assert events == init + last;
      CountsConcat(init, last);
      OneKind(events[|events| - 1]);
      BytesConcat(init, last);
      BytesConcat(Heartbeats(init), Heartbeats(last));
      BytesConcat(NonHeartbeats(init), NonHeartbeats(last));
    }
  }

  lemma NothingSplit()
    ensures Heartbeats([]) == [] && NonHeartbeats([]) == []
  {}

  lemma HistoryCounts()
    ensures var h := [TWIN] + Longs(4) + [TWIN] + Shorts(20);
            && NonHeartbeats(h) == [TWIN, TWIN] && Last(Heartbeats(h), RETAIN_HEARTBEATS) == Shorts(20)
  {
    hide NonHeartbeats, Heartbeats, Bytes;
    var longs, shorts := Longs(4), Shorts(20);
    CountsOfLongs(4);
    CountsOfShorts(20);
    OneMessage();
    CountsConcat([TWIN], longs);
    CountsConcat([TWIN] + longs, [TWIN]);
    CountsConcat([TWIN] + longs + [TWIN], shorts);
    assert Heartbeats([TWIN] + longs + [TWIN]) == longs;
    assert NonHeartbeats([TWIN] + longs + [TWIN]) == [TWIN, TWIN];
    assert (longs + shorts)[4..] == shorts;
  }

  lemma BytesOfTwins()
    ensures Bytes([TWIN, TWIN]) == 2 && !DistinctKeys([TWIN, TWIN])
  {
    var twins, one := [TWIN, TWIN], [TWIN];
    assert twins[0].key == twins[1].key;
    BytesFrom(twins, 0);
    BytesFrom(twins, 1);
    assert twins[0..] == twins && twins[2..] == [];
  }

  /** The premise of distinct keys cannot be had from the file at the end alone: a message, four long heartbeats, the same
      message again and twenty short heartbeats leave a file of 22 bytes that holds the message twice, because pruning
      took the long lines away that once kept the twins apart. */
  lemma PruningBringsTwinsIntoTheTail()
    ensures var file := Run(Appends([TWIN] + Longs(4) + [TWIN] + Shorts(20)), false).events;
            Bytes(file) == 22 && NonHeartbeats(file) == [TWIN, TWIN] && !DistinctKeys(file)
  {
    hide Run, Accepted, Pruned, Bytes, NonHeartbeats, Heartbeats, DistinctKeys, Fits, Last;
    var h := [TWIN] + Longs(4) + [TWIN] + Shorts(20);
    ShortsAccepted(20);
    FileOfHistory(Appends(h));
    PrunedContents(h);
    HistoryCounts();
    BytesOfShorts(20);
    BytesSplit(Pruned(h));
    BytesOfTwins();
    OthersStayDistinct(Pruned(h));
  }
}
