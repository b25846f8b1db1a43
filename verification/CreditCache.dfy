/** The credit store's cache when saves, loads, archiving and cleaning interleave (internal/aip2p/credit_store.go). A save
    writes its file and then marks the cache dirty. A load lists the live days and the archives, reads day by day, live files
    before the archive, all without the lock, and commits under it. Archiving a day reads its live files, writes the archive
    and then deletes the live directory. A `P` is a proof's id. */
module CreditCache {
  import opened Options

  /** A load that began at step `begunAt`: the days it has listed, those whose live files it has read, those it is done with,
      and the proofs it has found. `listed` once the archives are listed too. */
  datatype Load<P> = Load(begunAt: nat, listed: bool, days: set<int>, liveRead: set<int>, done: set<int>, found: set<P>)

  /** Archiving of one day, from the step at which it read the live proofs. */
  datatype Move<P> = Move(readAt: nat, read: set<P>, written: bool)

  /** The load whose commit filled the cache: the steps of its beginning and commit, and the clock at the commit. */
  datatype Fill = Fill(begunAt: nat, commitAt: nat, clock: int)

  /** `step` counts events; `landed` and `marked` record at which step a proof's file first appeared and its last save
      finished. `gone` holds what was ever deleted from disk without being archived. */
  datatype System<P> = System(
    live: set<P>, archived: set<P>, gone: set<P>, moves: map<int, Move<P>>,
    view: set<P>, dirty: bool, fill: Option<Fill>, loads: map<nat, Load<P>>,
    landed: map<P, nat>, marked: map<P, nat>, step: nat)

  datatype Event<P> =
    | Land(p: P)
    | Mark(p: P)
    | MarkOnly
    | Begin(thread: nat)
    | ListArchives(thread: nat)
    | ReadLive(thread: nat, day: int)
    | ReadArchive(thread: nat, day: int)
    | Commit(thread: nat, clock: int)
    | Abort(thread: nat)
    | ArchiveRead(day: int)
    | ArchiveWrite(day: int)
    | ArchiveDelete(day: int)
    | Clean(p: P)

  ghost predicate Init<P>(s: System<P>) {
    s == System({}, {}, {}, map[], {}, true, None, map[], map[], map[], 0)
  }

  /** ensureCache's readiness test. */
  predicate Ready<P>(s: System<P>, now: int, ttl: int) {
    !s.dirty && s.fill.Some? && now - s.fill.value.clock < ttl
  }

  function OfDay<P(==)>(proofs: set<P>, dayOf: P -> int, day: int): set<P> {
    set p | p in proofs && dayOf(p) == day
  }

  function DaysIn<P(==)>(proofs: set<P>, dayOf: P -> int): set<int> {
    set p | p in proofs :: dayOf(p)
  }

  /** An event of one load. */
  ghost predicate LoadNext<P(!new)>(s: System<P>, e: Event<P>, ttl: int, dayOf: P -> int, s': System<P>) {
    match e
    case Begin(t) =>
      t !in s.loads && s' == s.(loads := s.loads[t := Load(s.step, false, DaysIn(s.live, dayOf), {}, {}, {})], step := s.step + 1)
    case ListArchives(t) =>
      && t in s.loads && !s.loads[t].listed
      && var load := s.loads[t];
         s' == s.(loads := s.loads[t := load.(listed := true, days := load.days + DaysIn(s.archived, dayOf))], step := s.step + 1)
    case ReadLive(t, day) =>
      && t in s.loads && s.loads[t].listed && day in s.loads[t].days - s.loads[t].liveRead
      && var load := s.loads[t];
         s' == s.(loads := s.loads[t := load.(liveRead := load.liveRead + {day}, found := load.found + OfDay(s.live, dayOf, day))],
                  step := s.step + 1)
    case ReadArchive(t, day) =>
      && t in s.loads && day in s.loads[t].liveRead - s.loads[t].done
      && var load := s.loads[t];
         s' == s.(loads := s.loads[t := load.(done := load.done + {day}, found := load.found + OfDay(s.archived, dayOf, day))],
                  step := s.step + 1)
    case Commit(t, clock) =>
      && t in s.loads && s.loads[t].listed && s.loads[t].done == s.loads[t].days
      && var rest := s.(loads := s.loads - {t}, step := s.step + 1);
         if Ready(s, clock, ttl) then s' == rest
         else s' == rest.(view := s.loads[t].found, dirty := false, fill := Some(Fill(s.loads[t].begunAt, s.step, clock)))
    case Abort(t) => t in s.loads && s' == s.(loads := s.loads - {t}, step := s.step + 1)
    case _ => false
  }

  /** An event on the files. A save of a proof whose live file is there is refused as a duplicate; a day without live proofs
      is not archived; archiving and cleaning do not overlap. */
  ghost predicate FileNext<P(!new)>(s: System<P>, e: Event<P>, dayOf: P -> int, s': System<P>) {
    match e
    case Land(p) =>
      && p !in s.live
      && s' == s.(live := s.live + {p}, landed := if p in s.landed then s.landed else s.landed[p := s.step], step := s.step + 1)
    case Mark(p) => p in s.landed && s' == s.(dirty := true, marked := s.marked[p := s.step], step := s.step + 1)
    case MarkOnly => s' == s.(dirty := true, step := s.step + 1)
    case ArchiveRead(day) =>
      && day !in s.moves && OfDay(s.live, dayOf, day) != {}
      && s' == s.(moves := s.moves[day := Move(s.step, OfDay(s.live, dayOf, day), false)], step := s.step + 1)
    case ArchiveWrite(day) =>
      && day in s.moves && !s.moves[day].written
      && s' == s.(archived := s.archived + s.moves[day].read, moves := s.moves[day := s.moves[day].(written := true)],
                  step := s.step + 1)
    case ArchiveDelete(day) =>
      && day in s.moves && s.moves[day].written
      && var deleted := OfDay(s.live, dayOf, day);
         s' == s.(live := s.live - deleted, gone := s.gone + (deleted - s.archived), moves := s.moves - {day}, step := s.step + 1)
    case Clean(p) =>
      s.moves == map[] && s' == s.(live := s.live - {p}, archived := s.archived - {p}, gone := s.gone + {p}, step := s.step + 1)
    case _ => false
  }

  ghost predicate Next<P(!new)>(s: System<P>, e: Event<P>, ttl: int, dayOf: P -> int, s': System<P>) {
    LoadNext(s, e, ttl, dayOf, s') || FileNext(s, e, dayOf, s')
  }

  ghost predicate Run<P(!new)>(states: seq<System<P>>, events: seq<Event<P>>, ttl: int, dayOf: P -> int) {
    && |states| == |events| + 1 && Init(states[0])
    && forall i :: 0 <= i < |events| ==> Next(states[i], events[i], ttl, dayOf, states[i + 1])
  }

  // ---------- Invariant ----------

  ghost predicate Stored<P>(s: System<P>, p: P) {
    p in s.live || p in s.archived
  }

  /** How far a load has got with a proof that was stored before it began: its day is listed or will be, once the live files
      of the day are read the proof is found or archived, and once the day is done it is found. */
  ghost predicate Tracked<P>(s: System<P>, load: Load<P>, dayOf: P -> int, p: P) {
    && (dayOf(p) in load.days || (!load.listed && p in s.archived))
    && (dayOf(p) in load.liveRead ==> p in load.found || p in s.archived)
    && (dayOf(p) in load.done ==> p in load.found)
  }

  ghost predicate LoadOk<P(!new)>(s: System<P>, load: Load<P>, dayOf: P -> int) {
    && load.begunAt < s.step && load.done <= load.liveRead <= load.days
    && (forall p <- load.found :: Stored(s, p) || p in s.gone)
    && (forall p <- s.landed :: s.landed[p] < load.begunAt && p !in s.gone ==> Tracked(s, load, dayOf, p))
  }

  /** Archiving has read, and once written has archived, every proof of the day that was stored before it read. */
  ghost predicate MoveOk<P(!new)>(s: System<P>, day: int, move: Move<P>, dayOf: P -> int) {
    && move.readAt < s.step
    && (forall p <- move.read :: p in s.landed)
    && (move.written ==> move.read <= s.archived)
    && (forall p <- s.landed :: s.landed[p] < move.readAt && dayOf(p) == day && p !in s.gone ==> p in move.read || p in s.archived)
  }

  ghost predicate FillOk<P(!new)>(s: System<P>, f: Fill) {
    && f.begunAt < f.commitAt < s.step
    && (forall p <- s.view :: Stored(s, p) || p in s.gone)
    && (forall p <- s.landed :: s.landed[p] < f.begunAt && p !in s.gone ==> p in s.view)
    && (!s.dirty ==> forall p <- s.marked :: s.marked[p] < f.commitAt)
  }

  ghost predicate FilesOk<P(!new)>(s: System<P>) {
    && (forall p <- s.landed :: s.landed[p] < s.step && (Stored(s, p) || p in s.gone))
    && (forall p :: Stored(s, p) ==> p in s.landed)
    && (forall p <- s.marked :: p in s.landed && s.landed[p] < s.marked[p] < s.step)
  }

  ghost predicate Inv<P(!new)>(s: System<P>, dayOf: P -> int) {
    && FilesOk(s)
    && (forall t <- s.loads :: LoadOk(s, s.loads[t], dayOf))
    && (forall day <- s.moves :: MoveOk(s, day, s.moves[day], dayOf))
    && (s.fill.Some? ==> FillOk(s, s.fill.value))
  }

  // ---------- Each event keeps it ----------

  /** What an event on the files does to the proofs that were there. */
  ghost predicate Persists<P(!new)>(s: System<P>, s': System<P>) {
    && s.step < s'.step && s.gone <= s'.gone
    && (forall p <- s.landed :: p in s'.landed && s'.landed[p] == s.landed[p])
    && (forall p <- s'.landed :: p in s.landed || s'.landed[p] == s.step)
    && (forall p :: Stored(s, p) ==> Stored(s', p) || p in s'.gone)
    && (forall p <- s.archived :: p in s'.archived || p in s'.gone)
  }

  lemma FileEventPersists<P(!new)>(s: System<P>, e: Event<P>, dayOf: P -> int, s': System<P>)
    requires FilesOk(s) && FileNext(s, e, dayOf, s')
    ensures Persists(s, s') && s'.loads == s.loads && s'.view == s.view && s'.fill == s.fill
    ensures s'.dirty == (s.dirty || e.Mark? || e.MarkOnly?) && (!e.Mark? ==> s'.marked == s.marked)
  {}

  lemma PersistsKeepsLoad<P(!new)>(s: System<P>, s': System<P>, load: Load<P>, dayOf: P -> int)
    requires Persists(s, s') && LoadOk(s, load, dayOf)
    ensures LoadOk(s', load, dayOf)
  {
    forall p | p in s'.landed && s'.landed[p] < load.begunAt && p !in s'.gone ensures Tracked(s', load, dayOf, p) {
      assert p in s.landed && Tracked(s, load, dayOf, p);
    }
  }

  lemma PersistsKeepsFill<P(!new)>(s: System<P>, s': System<P>, f: Fill)
    requires Persists(s, s') && FillOk(s, f) && s'.view == s.view && (!s'.dirty ==> !s.dirty && s'.marked == s.marked)
    ensures FillOk(s', f)
  {}

  lemma FilesStayOk<P(!new)>(s: System<P>, e: Event<P>, dayOf: P -> int, s': System<P>)
    requires FilesOk(s) && FileNext(s, e, dayOf, s')
    requires forall day <- s.moves :: MoveOk(s, day, s.moves[day], dayOf)
    ensures FilesOk(s')
  {}

  lemma MovesStayOk<P(!new)>(s: System<P>, e: Event<P>, dayOf: P -> int, s': System<P>, day: int)
    requires FilesOk(s) && FileNext(s, e, dayOf, s') && day in s'.moves
    requires forall d <- s.moves :: MoveOk(s, d, s.moves[d], dayOf)
    ensures MoveOk(s', day, s'.moves[day], dayOf)
  {
    FileEventPersists(s, e, dayOf, s');
    if e.ArchiveRead? && e.day == day {
      assert s'.moves[day].read == OfDay(s.live, dayOf, day);
    } else {
      assert MoveOk(s, day, s.moves[day], dayOf);
    }
  }

  lemma FileStepKeeps<P(!new)>(s: System<P>, e: Event<P>, dayOf: P -> int, s': System<P>)
    requires Inv(s, dayOf) && FileNext(s, e, dayOf, s')
    ensures Inv(s', dayOf)
  {
    hide LoadOk, MoveOk, FilesOk, Persists, FileNext, FillOk;
    FileEventPersists(s, e, dayOf, s');
    FilesStayOk(s, e, dayOf, s');
    forall t | t in s'.loads ensures LoadOk(s', s'.loads[t], dayOf) {
      PersistsKeepsLoad(s, s', s.loads[t], dayOf);
    }
    forall day | day in s'.moves ensures MoveOk(s', day, s'.moves[day], dayOf) {
      MovesStayOk(s, e, dayOf, s', day);
    }
    if s.fill.Some? {
      PersistsKeepsFill(s, s', s.fill.value);
    }
  }

  /** The proofs are as they were: only loads and cache have changed. */
  ghost predicate SameFiles<P>(s: System<P>, s': System<P>) {
    && s'.live == s.live && s'.archived == s.archived && s'.gone == s.gone && s'.moves == s.moves
    && s'.landed == s.landed && s'.marked == s.marked && s'.step == s.step + 1
  }

  lemma LoadStaysOk<P(!new)>(s: System<P>, e: Event<P>, ttl: int, dayOf: P -> int, s': System<P>, t: nat)
    requires FilesOk(s) && LoadNext(s, e, ttl, dayOf, s') && t in s'.loads
    requires t in s.loads ==> LoadOk(s, s.loads[t], dayOf)
    ensures LoadOk(s', s'.loads[t], dayOf)
  {
    assert SameFiles(s, s');
    var load := s'.loads[t];
    forall p | p in s.landed && s.landed[p] < load.begunAt && p !in s.gone ensures Tracked(s', load, dayOf, p) {
      assert t in s.loads ==> Tracked(s, s.loads[t], dayOf, p) || e.Begin?;
    }
  }

  lemma CommitFills<P(!new)>(s: System<P>, load: Load<P>, dayOf: P -> int, clock: int, s': System<P>)
    requires FilesOk(s) && LoadOk(s, load, dayOf) && load.listed && load.done == load.days
    requires SameFiles(s, s') && s'.view == load.found
    ensures FillOk(s', Fill(load.begunAt, s.step, clock))
  {
    forall p | p in s.landed && s.landed[p] < load.begunAt && p !in s.gone ensures p in load.found {
      assert Tracked(s, load, dayOf, p);
    }
  }

  lemma LoadStepKeeps<P(!new)>(s: System<P>, e: Event<P>, ttl: int, dayOf: P -> int, s': System<P>)
    requires Inv(s, dayOf) && LoadNext(s, e, ttl, dayOf, s')
    ensures Inv(s', dayOf)
  {
    hide LoadOk, Tracked, MoveOk;
    assert SameFiles(s, s');
    forall t | t in s'.loads ensures LoadOk(s', s'.loads[t], dayOf) {
      LoadStaysOk(s, e, ttl, dayOf, s', t);
    }
    forall day | day in s'.moves ensures MoveOk(s', day, s'.moves[day], dayOf) {
      MoveStays(s, s', day, dayOf);
    }
    if e.Commit? && !Ready(s, e.clock, ttl) {
      CommitFills(s, s.loads[e.thread], dayOf, e.clock, s');
    }
  }

  lemma MoveStays<P(!new)>(s: System<P>, s': System<P>, day: int, dayOf: P -> int)
    requires SameFiles(s, s') && day in s.moves && MoveOk(s, day, s.moves[day], dayOf)
    ensures MoveOk(s', day, s.moves[day], dayOf)
  {}

  lemma {:induction false} RunsKeepInvariant<P(!new)>(
    states: seq<System<P>>, events: seq<Event<P>>, ttl: int, dayOf: P -> int, i: nat)
    requires Run(states, events, ttl, dayOf) && i < |states|
    ensures Inv(states[i], dayOf)
  {
    hide Inv, LoadNext, FileNext;
    if i == 0 {
      StartsOk(states[0], dayOf);
    } else {
      RunsKeepInvariant(states, events, ttl, dayOf, i - 1);
      var s, e, s' := states[i - 1], events[i - 1], states[i];
      assert Next(s, e, ttl, dayOf, s');
      if LoadNext(s, e, ttl, dayOf, s') {
        LoadStepKeeps(s, e, ttl, dayOf, s');
      } else {
        FileStepKeeps(s, e, dayOf, s');
      }
    }
  }

  lemma StartsOk<P(!new)>(s: System<P>, dayOf: P -> int)
    requires Init(s)
    ensures Inv(s, dayOf)
  {}

  // ---------- Theorems over whole runs ----------

  /** In every run: if a ready cache misses a finished save whose proof was never deleted, then the proof first landed, and
      its save finished, between the beginning and the commit of the load that filled the cache, and that commit is less
      than the TTL ago. */
  lemma MissedSaveIsRaced<P(!new)>(
    states: seq<System<P>>, events: seq<Event<P>>, ttl: int, dayOf: P -> int, i: nat, now: int, p: P)
    requires Run(states, events, ttl, dayOf) && i < |states|
    requires Ready(states[i], now, ttl) && p in states[i].marked && p !in states[i].gone && p !in states[i].view
    ensures var s := states[i];
            && p in s.landed && s.fill.value.begunAt <= s.landed[p] < s.marked[p] < s.fill.value.commitAt
            && now < s.fill.value.clock + ttl
  {
    RunsKeepInvariant(states, events, ttl, dayOf, i);
    hide Run;
  }

  /** A filled cache shows every proof that was stored before its load began and never deleted, whatever was archived while
      the load was reading. */
  lemma UnracedReadsAreComplete<P(!new)>(
    states: seq<System<P>>, events: seq<Event<P>>, ttl: int, dayOf: P -> int, i: nat, p: P)
    requires Run(states, events, ttl, dayOf) && i < |states|
    requires states[i].fill.Some? && p in states[i].landed && p !in states[i].gone
    requires states[i].landed[p] < states[i].fill.value.begunAt
    ensures p in states[i].view
  {
    RunsKeepInvariant(states, events, ttl, dayOf, i);
    hide Run;
  }

  /** A cache shows only proofs that are stored, live or archived, or that were deleted. */
  lemma ViewIsOnDisk<P(!new)>(states: seq<System<P>>, events: seq<Event<P>>, ttl: int, dayOf: P -> int, i: nat)
    requires Run(states, events, ttl, dayOf) && i < |states| && states[i].fill.Some?
    ensures states[i].view <= states[i].live + states[i].archived + states[i].gone
  {
    RunsKeepInvariant(states, events, ttl, dayOf, i);
    hide Run;
  }

  /** Archiving deletes no proof that had landed before it read the live files of the day: the only ones it can lose landed
      between that and the deletion. */
  lemma OnlyRacedSavesAreLost<P(!new)>(
    states: seq<System<P>>, events: seq<Event<P>>, ttl: int, dayOf: P -> int, i: nat, day: int, p: P)
    requires Run(states, events, ttl, dayOf) && i < |events| && events[i] == ArchiveDelete(day)
    requires p !in states[i].gone && p in states[i + 1].gone
    ensures day in states[i].moves && p in states[i].landed && dayOf(p) == day
    ensures states[i].moves[day].readAt <= states[i].landed[p]
  {
    RunsKeepInvariant(states, events, ttl, dayOf, i);
    assert Next(states[i], events[i], ttl, dayOf, states[i + 1]);
    hide Run;
  }

  /** The race with a load exists: a save that lands and finishes inside a load is missed by the cache that load fills. */
  lemma RacedSaveIsMissed<P(!new)>(p: P, ttl: int, dayOf: P -> int) returns (states: seq<System<P>>, events: seq<Event<P>>)
    requires ttl > 0
    ensures Run(states, events, ttl, dayOf) && |states| == 6
    ensures p in states[5].marked && p !in states[5].gone && p !in states[5].view && Ready(states[5], 0, ttl)
  {
    var s0: System<P> := System({}, {}, {}, map[], {}, true, None, map[], map[], map[], 0);
    var s1 := s0.(loads := map[0 := Load(0, false, {}, {}, {}, {})], step := 1);
    var s2 := s1.(loads := map[0 := Load(0, true, {}, {}, {}, {})], step := 2);
    var s3 := s2.(live := {p}, landed := map[p := 2], step := 3);
    var s4 := s3.(dirty := true, marked := map[p := 3], step := 4);
    var s5 := s4.(loads := map[], step := 5, view := {}, dirty := false, fill := Some(Fill(0, 4, 0)));
    states, events := [s0, s1, s2, s3, s4, s5], [Begin(0), ListArchives(0), Land(p), Mark(p), Commit(0, 0)];
    assert DaysIn(s0.live, dayOf) == {} && DaysIn(s1.archived, dayOf) == {};
    assert s1.loads[0].days + {} == {};
    assert s3.live == s2.live + {p};
    assert s4.loads - {0} == s5.loads;
    assert LoadNext(s0, events[0], ttl, dayOf, s1) && LoadNext(s1, events[1], ttl, dayOf, s2);
    assert FileNext(s2, events[2], dayOf, s3) && FileNext(s3, events[3], dayOf, s4) && LoadNext(s4, events[4], ttl, dayOf, s5);
  }

  /** The race with archiving exists: a save that lands after the live files of its day are read and before they are deleted
      reports success, and its proof is nowhere. */
  lemma RacedSaveIsLost<P(!new)>(p: P, other: P, ttl: int, dayOf: P -> int) returns (states: seq<System<P>>, events: seq<Event<P>>)
    requires p != other && dayOf(p) == dayOf(other)
    ensures Run(states, events, ttl, dayOf) && |states| == 7
    ensures p in states[6].marked && p !in states[6].live && p !in states[6].archived
  {
    var d := dayOf(p);
    var s0: System<P> := System({}, {}, {}, map[], {}, true, None, map[], map[], map[], 0);
    var s1 := s0.(live := {other}, landed := map[other := 0], step := 1);
    var s2 := s1.(moves := map[d := Move(1, {other}, false)], step := 2);
    var s3 := s2.(live := {other, p}, landed := map[other := 0, p := 2], step := 3);
    var s4 := s3.(archived := {other}, moves := map[d := Move(1, {other}, true)], step := 4);
    var s5 := s4.(live := {}, gone := {p}, moves := map[], step := 5);
    var s6 := s5.(dirty := true, marked := map[p := 5], step := 6);
    states := [s0, s1, s2, s3, s4, s5, s6];
    events := [Land(other), ArchiveRead(d), Land(p), ArchiveWrite(d), ArchiveDelete(d), Mark(p)];
    assert OfDay(s1.live, dayOf, d) == {other} && other in {other} && OfDay(s4.live, dayOf, d) == {other, p};
    assert s0.live + {other} == s1.live && s2.live + {p} == s3.live && s3.archived + {other} == s4.archived;
    assert s4.moves - {d} == s5.moves && s4.live - {other, p} == s5.live && s4.gone + ({other, p} - s4.archived) == s5.gone;
    assert FileNext(s0, events[0], dayOf, s1) && FileNext(s1, events[1], dayOf, s2) && FileNext(s2, events[2], dayOf, s3);
    assert FileNext(s3, events[3], dayOf, s4) && FileNext(s4, events[4], dayOf, s5) && FileNext(s5, events[5], dayOf, s6);
  }
}
