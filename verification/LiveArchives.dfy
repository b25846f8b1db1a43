/** Daily history archives of a live room: 24-hour windows that end at 05:30 in UTC+8
    (internal/aip2p/live/store.go, EnsureDailyHistoryArchives). Instants are whole seconds since the Unix epoch. */
module LiveArchives {
  import opened LiveStore
  import opened Options

  const DAY := 86400
  const ZONE := 8 * 3600
  const CUTOFF_OF_DAY := 5 * 3600 + 30 * 60

  // ---------- Windows ----------

  /** liveArchiveWindowEnd: 05:30 of the local day, or of the day before when that has not come yet. */
  function WindowEnd(now: int): int {
    var local := now + ZONE;
    var cutoff := local - local % DAY + CUTOFF_OF_DAY;
    (if local < cutoff then cutoff - DAY else cutoff) - ZONE
  }

  /** The window ends are exactly the instants at 05:30 local time. */
  predicate IsWindowEnd(t: int) {
    (t + ZONE - CUTOFF_OF_DAY) % DAY == 0
  }

  /** It is the latest 05:30 that is not after now. */
  lemma WindowEndIsLatest(now: int, other: int)
    ensures IsWindowEnd(WindowEnd(now)) && WindowEnd(now) <= now < WindowEnd(now) + DAY
    ensures IsWindowEnd(other) && other <= now ==> other <= WindowEnd(now)
  {
    var local := now + ZONE;
    var rest := local % DAY;
    var days := local / DAY;
    assert local == days * DAY + rest;
    var steps := if rest < CUTOFF_OF_DAY then days - 1 else days;
    assert WindowEnd(now) + ZONE - CUTOFF_OF_DAY == steps * DAY;
    WholeDays(steps);
    if IsWindowEnd(other) && other <= now {
      var k := (other + ZONE - CUTOFF_OF_DAY) / DAY;
      assert other + ZONE - CUTOFF_OF_DAY == k * DAY;
      assert k <= steps;
    }
  }

  lemma WholeDays(k: int)
    ensures (k * DAY) % DAY == 0
  {}

  /** The last window end of the room's first day, moved to the first one at or after the first event. */
  function FirstWindowEnd(first: int): int {
    if WindowEnd(first) < first then WindowEnd(first) + DAY else WindowEnd(first)
  }

  /** The k-th daily window: from start to end, end excluded. */
  function EndOf(first: int, k: nat): int {
    FirstWindowEnd(first) + k * DAY
  }

  /** How many windows end by the latest cutoff. */
  function WindowCount(first: int, now: int): nat {
    if WindowEnd(now) < FirstWindowEnd(first) then 0
    else (WindowEnd(now) - FirstWindowEnd(first)) / DAY + 1
  }

  predicate InWindow(t: int, first: int, k: nat) {
    EndOf(first, k) - DAY <= t < EndOf(first, k)
  }

  /** The daily windows tile the time from the first window's start to the latest cutoff. */
  lemma WindowsTile(first: int, now: int, t: int)
    ensures (exists k: nat :: k < WindowCount(first, now) && InWindow(t, first, k))
       <==> FirstWindowEnd(first) - DAY <= t < WindowEnd(now) && WindowCount(first, now) > 0
    ensures forall j: nat, k: nat :: InWindow(t, first, j) && InWindow(t, first, k) ==> j == k
  {
    var start := FirstWindowEnd(first) - DAY;
    var last := LastWindow(first, now);
    forall j: nat, k: nat | InWindow(t, first, j) && InWindow(t, first, k)
      ensures j == k
    {
      assert start + j * DAY <= t < start + j * DAY + DAY;
      assert start + k * DAY <= t < start + k * DAY + DAY;
    }
    if WindowCount(first, now) > 0 && start <= t < WindowEnd(now) {
      var k := (t - start) / DAY;
      assert start + k * DAY <= t < start + k * DAY + DAY;
      assert InWindow(t, first, k);
    }
    if k: nat :| k < WindowCount(first, now) && InWindow(t, first, k) {
      assert start <= start + k * DAY;
    }
  }

  /** The windows end with the one that ends at the latest cutoff. */
  lemma LastWindow(first: int, now: int) returns (last: int)
    ensures last == WindowCount(first, now) - 1
    ensures last >= 0 ==> FirstWindowEnd(first) + last * DAY == WindowEnd(now)
  {
    hide WindowEnd, FirstWindowEnd;
    last := WindowCount(first, now) - 1;
    if last >= 0 {
      FirstEventIsCovered(first);
      WindowEndIsLatest(now, now);
      var a, b := WindowEnd(now) + ZONE - CUTOFF_OF_DAY, FirstWindowEnd(first) + ZONE - CUTOFF_OF_DAY;
      DifferenceOfDays(a, b);
      assert a - b == WindowEnd(now) - FirstWindowEnd(first);
    }
  }

  lemma DifferenceOfDays(a: int, b: int)
    requires a % DAY == 0 && b % DAY == 0
    ensures (a - b) / DAY * DAY == a - b
  {
    assert a == (a / DAY) * DAY && b == (b / DAY) * DAY;
    assert a - b == (a / DAY - b / DAY) * DAY;
  }

  /** The first event falls in the first window or, when it stands at 05:30 sharp, in the second. */
  lemma FirstEventIsCovered(first: int)
    ensures FirstWindowEnd(first) - DAY <= first <= FirstWindowEnd(first)
    ensures IsWindowEnd(FirstWindowEnd(first))
  {
    WindowEndIsLatest(first, first);
  }

  /** No earlier window ends at or after the first event. */
  lemma FirstWindowIsEarliest(first: int, other: int)
    requires IsWindowEnd(other) && first <= other
    ensures FirstWindowEnd(first) <= other
  {
    WindowEndIsLatest(first, first);
    FirstEventIsCovered(first);
    DifferenceOfDays(FirstWindowEnd(first) + ZONE - CUTOFF_OF_DAY, other + ZONE - CUTOFF_OF_DAY);
  }

  // ---------- Events in windows ----------

  /** filterArchiveEventsByWindow for a window with both ends. */
  function InRange(events: seq<Event>, start: int, end: int): seq<Event> {
    if events == [] then [] else OneInRange(events[0], start, end) + InRange(events[1..], start, end)
  }

  function OneInRange(event: Event, start: int, end: int): seq<Event> {
    if event.at.Some? && start <= event.at.value < end then [event] else []
  }

  method FilterByWindow(events: seq<Event>, start: int, end: int) returns (out: seq<Event>)
    ensures out == InRange(events, start, end)
  {
    out := [];
    assert events[0..] == events;
    for index := 0 to |events|
      invariant out + InRange(events[index..], start, end) == InRange(events, start, end)
    {
      var event := events[index];
      assert events[index..][1..] == events[index + 1..];
      ghost var rest := InRange(events[index + 1..], start, end);
      if event.at.None? || event.at.value < start || !(event.at.value < end) {
        assert [] + rest == rest;
        continue;
      }
      assert (out + [event]) + rest == out + ([event] + rest);
      out := out + [event];
    }
  }

  /** The range holds exactly the parseable events of the window. */
  lemma {:induction false} RangeIsExact(events: seq<Event>, start: int, end: int)
    ensures forall e :: e in InRange(events, start, end) <==> e in events && e.at.Some? && start <= e.at.value < end
  {
    if events != [] {
      RangeIsExact(events[1..], start, end);
      assert events == [events[0]] + events[1..];
    }
  }

  /** It takes apart like the list itself: nothing changes place and nothing is repeated. */
  lemma {:induction false} RangeKeepsOrder(events: seq<Event>, more: seq<Event>, start: int, end: int)
    ensures InRange(events + more, start, end) == InRange(events, start, end) + InRange(more, start, end)
  {
    hide InRange, OneInRange;
    RangeStep(events, start, end);
    if events == [] {
      assert events + more == more;
    } else {
      var head, rest := OneInRange(events[0], start, end), events[1..];
      RangeKeepsOrder(rest, more, start, end);
      RangeStep(events + more, start, end);
      assert (events + more)[1..] == rest + more;
    }
  }

  lemma RangeStep(events: seq<Event>, start: int, end: int)
    ensures InRange(events, start, end) ==
              if events == [] then [] else OneInRange(events[0], start, end) + InRange(events[1..], start, end)
  {}

  lemma {:induction false} RangesConcat(events: seq<Event>, start: int, mid: int, end: int)
    requires start <= mid <= end
    ensures |InRange(events, start, end)| == |InRange(events, start, mid)| + |InRange(events, mid, end)|
  {
    if events != [] {
      RangesConcat(events[1..], start, mid, end);
    }
  }

  /** The number of events in the first n windows. */
  function CountInWindows(events: seq<Event>, first: int, n: nat): nat {
    if n == 0 then 0
    else CountInWindows(events, first, n - 1) + |InRange(events, EndOf(first, n - 1) - DAY, EndOf(first, n - 1))|
  }

  lemma {:induction false} CountsAddUpTo(events: seq<Event>, first: int, n: nat)
    ensures CountInWindows(events, first, n)
         == |InRange(events, FirstWindowEnd(first) - DAY, FirstWindowEnd(first) - DAY + n * DAY)|
  {
    var start := FirstWindowEnd(first) - DAY;
    if n == 0 {
      EmptyRange(events, start);
    } else {
      CountsAddUpTo(events, first, n - 1);
      RangesConcat(events, start, start + (n - 1) * DAY, start + n * DAY);
    }
  }

  lemma {:induction false} EmptyRange(events: seq<Event>, at: int)
    ensures InRange(events, at, at) == []
  {
    if events != [] {
      EmptyRange(events[1..], at);
    }
  }

  /** The per-window counts sum to the number of parseable events in the whole span. */
  lemma CountsSumToTotal(events: seq<Event>, first: int, now: int)
    requires WindowCount(first, now) > 0
    ensures CountInWindows(events, first, WindowCount(first, now))
         == |InRange(events, FirstWindowEnd(first) - DAY, WindowEnd(now))|
  {
    var last := LastWindow(first, now);
    CountsAddUpTo(events, first, WindowCount(first, now));
  }

  // ---------- The archive loop ----------

  /** The daily archives of one room, keyed by the end of their window. */
  class DailyArchives {
    var saved: map<int, seq<Event>>

    constructor ()
      ensures saved == map[]
    {
      saved := map[];
    }

    /** withHistoryArchive for one daily window: nothing is written for an empty window or an existing archive. */
    method ArchiveWindow(events: seq<Event>, end: int) returns (created: bool)
      modifies this
      ensures var window := InRange(DisplayEvents(events), end - DAY, end);
              && created == (window != [] && end !in old(saved))
              && saved == if created then old(saved)[end := window] else old(saved)
    {
      var visible := FilterByWindow(DisplayEvents(events), end - DAY, end);
      if |visible| == 0 || end in saved {
        return false;
      }
      saved := saved[end := visible];
      return true;
    }

    /** EnsureDailyHistoryArchives on what ReadEvents gave; it fails exactly if that did. Otherwise every daily window up to
        the latest cutoff that has visible events is archived afterwards, with exactly those events when the archive is
        new; older archives are left as they are. */
    method EnsureDaily(reading: Option<seq<Event>>, now: int) returns (ok: bool, created: seq<int>)
      modifies this
      ensures ok <==> reading.Some?
      ensures !ok ==> created == [] && saved == old(saved)
      ensures forall end <- old(saved) :: end in saved && saved[end] == old(saved)[end]
      ensures forall k :: 0 <= k < |created| ==> created[k] in saved && created[k] !in old(saved)
      ensures ok ==>
                forall end <- saved :: end !in old(saved) ==>
                  IsWindowEnd(end) && saved[end] == InRange(DisplayEvents(reading.value), end - DAY, end) && saved[end] != []
      ensures ok && Runs(reading.value, now) ==>
                var events := reading.value;
                forall k: nat :: k < WindowCount(FirstAt(events), now) ==>
                  InRange(DisplayEvents(events), EndOf(FirstAt(events), k) - DAY, EndOf(FirstAt(events), k)) != [] ==>
                  EndOf(FirstAt(events), k) in saved
      ensures ok && !Runs(reading.value, now) ==> created == [] && saved == old(saved)
    {
      hide WindowEnd, InRange, DisplayEvents;
      ok, created := reading.Some?, [];
      if !ok {
        return;
      }
      var events := reading.value;
      var visible := DisplayEvents(events);
      if |visible| == 0 || visible[0].at.None? {
        return;
      }
      var first := visible[0].at.value;
      var latest := WindowEnd(now);
      FirstEventIsCovered(first);
      if latest < first {
        return;
      }
      var firstEnd := WindowEnd(first);
      if firstEnd < first {
        firstEnd := firstEnd + DAY;
      }
      if firstEnd > latest {
        return;
      }
      var end := firstEnd;
      ghost var k: nat := 0;
      ghost var last := LastWindow(first, now);
      while end <= latest
        invariant end == EndOf(first, k) && IsWindowEnd(end)
        invariant forall e <- old(saved) :: e in saved && saved[e] == old(saved)[e]
        invariant forall j :: 0 <= j < |created| ==> created[j] in saved && created[j] !in old(saved)
        invariant forall e <- saved :: e !in old(saved) ==> IsWindowEnd(e) && saved[e] == InRange(visible, e - DAY, e) && saved[e] != []
        invariant forall j: nat :: j < k ==> InRange(visible, EndOf(first, j) - DAY, EndOf(first, j)) != [] ==> EndOf(first, j) in saved
        decreases latest - end
      {
        var new_ := ArchiveWindow(events, end);
        if new_ {
          created := created + [end];
        }
        end, k := end + DAY, k + 1;
      }
    }
  }

  /** The instant of the first visible event. */
  function FirstAt(events: seq<Event>): int {
    var visible := DisplayEvents(events);
    if visible != [] && visible[0].at.Some? then visible[0].at.value else 0
  }

  /** Whether the call reaches its loop. */
  predicate Runs(events: seq<Event>, now: int) {
    var visible := DisplayEvents(events);
    visible != [] && visible[0].at.Some? && FirstWindowEnd(FirstAt(events)) <= WindowEnd(now)
  }

  /** The call archives something only if 05:30 has come since the first visible event, or at that very instant. */
  lemma RunsExactly(events: seq<Event>, now: int)
    ensures var visible := DisplayEvents(events);
            Runs(events, now) <==>
              && visible != [] && visible[0].at.Some?
              && exists end :: IsWindowEnd(end) && visible[0].at.value <= end <= now
  {
    hide DisplayEvents, IsWindowEnd, WindowEnd, FirstWindowEnd;
    var visible := DisplayEvents(events);
    if visible != [] && visible[0].at.Some? {
      var first := visible[0].at.value;
      FirstEventIsCovered(first);
      WindowEndIsLatest(now, now);
      forall end | IsWindowEnd(end) && first <= end <= now ensures FirstWindowEnd(first) <= WindowEnd(now) {
        FirstWindowIsEarliest(first, end);
        WindowEndIsLatest(now, end);
      }
    }
  }

  /** After a call that archives, starting from no archives, each visible event between the first window's start and the latest
      cutoff stands in exactly one archive, and no archive holds anything else. */
  lemma EachEventIsArchivedOnce(events: seq<Event>, now: int, saved: map<int, seq<Event>>, e: Event)
    requires Runs(events, now) && e in DisplayEvents(events) && e.at.Some?
    requires FirstWindowEnd(FirstAt(events)) - DAY <= e.at.value < WindowEnd(now)
    requires forall end <- saved :: saved[end] == InRange(DisplayEvents(events), end - DAY, end)
    requires forall k: nat :: k < WindowCount(FirstAt(events), now) ==>
               InRange(DisplayEvents(events), EndOf(FirstAt(events), k) - DAY, EndOf(FirstAt(events), k)) != [] ==>
               EndOf(FirstAt(events), k) in saved
    requires forall end <- saved :: IsWindowEnd(end)
    ensures exists end :: end in saved && e in saved[end]
    ensures forall a, b :: a in saved && b in saved && e in saved[a] && e in saved[b] ==> a == b
  {
    hide DisplayEvents, WindowEnd, FirstWindowEnd, InRange;
    var first, visible, t := FirstAt(events), DisplayEvents(events), e.at.value;
    WindowsTile(first, now, t);
    var k: nat :| k < WindowCount(first, now) && InWindow(t, first, k);
    var end := EndOf(first, k);
    RangeIsExact(visible, end - DAY, end);
    assert end in saved && e in saved[end];
    forall a, b | a in saved && b in saved && e in saved[a] && e in saved[b] ensures a == b {
      RangeIsExact(visible, a - DAY, a);
      RangeIsExact(visible, b - DAY, b);
      DifferenceOfDays(a + ZONE - CUTOFF_OF_DAY, b + ZONE - CUTOFF_OF_DAY);
    }
  }
}
