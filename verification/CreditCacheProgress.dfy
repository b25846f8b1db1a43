/** What a load of the credit cache and the archiving of a day do when nothing comes in between
    (internal/aip2p/credit_store.go:507-548, 690-764). */
module CreditCacheProgress {
  import opened CreditCache
  import opened Options

  ghost predicate Path<P(!new)>(states: seq<System<P>>, events: seq<Event<P>>, ttl: int, dayOf: P -> int) {
    && |states| == |events| + 1
    && forall i :: 0 <= i < |events| ==> Next(states[i], events[i], ttl, dayOf, states[i + 1])
  }

  lemma PathStep<P(!new)>(s: System<P>, e: Event<P>, s': System<P>, ttl: int, dayOf: P -> int)
    requires Next(s, e, ttl, dayOf, s')
    ensures Path([s, s'], [e], ttl, dayOf)
  {}

  lemma PathConcat<P(!new)>(a: seq<System<P>>, ae: seq<Event<P>>, b: seq<System<P>>, be: seq<Event<P>>, ttl: int, dayOf: P -> int)
    requires Path(a, ae, ttl, dayOf) && Path(b, be, ttl, dayOf) && a[|a| - 1] == b[0]
    ensures Path(a[..|a| - 1] + b, ae + be, ttl, dayOf)
    ensures (a[..|a| - 1] + b)[0] == a[0] && (a[..|a| - 1] + b)[|ae| + |be|] == b[|be|]
  {
    hide Next;
  }

  // ---------- Archiving ----------

  /** Archiving a day with nothing in between moves exactly its live proofs into the archive and deletes none. */
  lemma ArchivingAlone<P(!new)>(s: System<P>, day: int, ttl: int, dayOf: P -> int) returns (states: seq<System<P>>)
    requires day !in s.moves && OfDay(s.live, dayOf, day) != {}
    ensures Path(states, [ArchiveRead(day), ArchiveWrite(day), ArchiveDelete(day)], ttl, dayOf) && states[0] == s
    ensures forall p :: p in states[3].live <==> p in s.live && dayOf(p) != day
    ensures forall p :: p in states[3].archived <==> p in s.archived || (p in s.live && dayOf(p) == day)
    ensures states[3].gone == s.gone && states[3].moves == s.moves
  {
    var moved := OfDay(s.live, dayOf, day);
    var read := s.(moves := s.moves[day := Move(s.step, moved, false)], step := s.step + 1);
    var written := read.(archived := read.archived + moved, moves := read.moves[day := Move(s.step, moved, true)],
                         step := read.step + 1);
    var done := written.(live := s.live - moved, moves := written.moves - {day}, step := written.step + 1);
    assert moved - written.archived == {};
    assert s.gone + {} == s.gone;
    assert done.moves == s.moves;
    states := [s, read, written, done];
  }

  // ---------- Loading ----------

  /** What a load has found on the days it is done with, when nothing came in between. */
  ghost predicate ReadSoFar<P(!new)>(s: System<P>, t: nat, dayOf: P -> int) {
    && t in s.loads && s.loads[t].listed && s.loads[t].liveRead == s.loads[t].done <= s.loads[t].days
    && forall p :: p in s.loads[t].found <==> Stored(s, p) && dayOf(p) in s.loads[t].done
  }

  ghost predicate SameButLoads<P>(s: System<P>, s': System<P>) {
    s' == s.(loads := s'.loads, step := s'.step)
  }

  /** Reading one more day. */
  lemma ReadDayAlone<P(!new)>(s: System<P>, t: nat, day: int, ttl: int, dayOf: P -> int) returns (states: seq<System<P>>)
    requires ReadSoFar(s, t, dayOf) && day in s.loads[t].days - s.loads[t].done
    ensures Path(states, [ReadLive(t, day), ReadArchive(t, day)], ttl, dayOf) && states[0] == s
    ensures ReadSoFar(states[2], t, dayOf) && SameButLoads(s, states[2])
    ensures states[2].loads[t].days == s.loads[t].days && states[2].loads[t].done == s.loads[t].done + {day}
    ensures states[2].loads[t].begunAt == s.loads[t].begunAt && states[2].loads.Keys == s.loads.Keys
    ensures states[2].step == s.step + 2
  {
    var load := s.loads[t];
    var live := load.(liveRead := load.liveRead + {day}, found := load.found + OfDay(s.live, dayOf, day));
    var both := live.(done := live.done + {day}, found := live.found + OfDay(s.archived, dayOf, day));
    var s1 := s.(loads := s.loads[t := live], step := s.step + 1);
    var s2 := s1.(loads := s1.loads[t := both], step := s1.step + 1);
    states := [s, s1, s2];
  }

  lemma {:induction false} ReadDaysAlone<P(!new)>(s: System<P>, t: nat, ttl: int, dayOf: P -> int)
    returns (states: seq<System<P>>, events: seq<Event<P>>)
    requires ReadSoFar(s, t, dayOf)
    ensures Path(states, events, ttl, dayOf) && states[0] == s
    ensures var end := states[|events|];
            && ReadSoFar(end, t, dayOf) && SameButLoads(s, end) && end.loads[t].done == end.loads[t].days == s.loads[t].days
            && end.loads[t].begunAt == s.loads[t].begunAt
    decreases s.loads[t].days - s.loads[t].done
  {
    var left := s.loads[t].days - s.loads[t].done;
    if day :| day in left {
      hide Next, ReadSoFar;
      var first := ReadDayAlone(s, t, day, ttl, dayOf);
      var rest, more := ReadDaysAlone(first[2], t, ttl, dayOf);
      PathConcat(first, [ReadLive(t, day), ReadArchive(t, day)], rest, more, ttl, dayOf);
      states, events := first[..2] + rest, [ReadLive(t, day), ReadArchive(t, day)] + more;
    } else {
      forall d | d in s.loads[t].days ensures d in s.loads[t].done {
        assert d !in left;
      }
      assert s.loads[t].done == s.loads[t].days;
      states, events := [s], [];
    }
  }

  /** From every state in which the cache is not ready, a load with nothing in between fills it with exactly the proofs on
      disk, live and archived, and it is ready then. */
  lemma LoadAlone<P(!new)>(s: System<P>, t: nat, clock: int, ttl: int, dayOf: P -> int)
    returns (states: seq<System<P>>, events: seq<Event<P>>)
    requires t !in s.loads && !Ready(s, clock, ttl) && ttl > 0
    ensures Path(states, events, ttl, dayOf) && states[0] == s
    ensures var end := states[|events|];
            && (forall p :: p in end.view <==> p in s.live || p in s.archived)
            && Ready(end, clock, ttl) && end.live == s.live && end.archived == s.archived && end.gone == s.gone
  {
    var load := Load(s.step, false, DaysIn(s.live, dayOf), {}, {}, {});
    var begun := s.(loads := s.loads[t := load], step := s.step + 1);
    var listing := load.(listed := true, days := load.days + DaysIn(s.archived, dayOf));
    var listed := begun.(loads := begun.loads[t := listing], step := begun.step + 1);
    PathStep(s, Begin(t), begun, ttl, dayOf);
    PathStep(begun, ListArchives(t), listed, ttl, dayOf);
    PathConcat([s, begun], [Begin(t)], [begun, listed], [ListArchives(t)], ttl, dayOf);
    var middle, readings := ReadDaysAlone(listed, t, ttl, dayOf);
    var last := middle[|readings|];
    var rest := last.(loads := last.loads - {t}, step := last.step + 1);
    var end := rest.(view := last.loads[t].found, dirty := false, fill := Some(Fill(last.loads[t].begunAt, last.step, clock)));
    PathStep(last, Event<P>.Commit(t, clock), end, ttl, dayOf);
    forall p | Stored(s, p) ensures p in end.view {
      assert dayOf(p) in last.loads[t].days;
    }
    hide Next, ReadSoFar;
    PathConcat(middle, readings, [last, end], [Commit(t, clock)], ttl, dayOf);
    var tail := middle[..|middle| - 1] + [last, end];
    assert [s, begun][..1] + [begun, listed] == [s, begun, listed];
    assert [Event<P>.Begin(t)] + [ListArchives(t)] == [Begin(t), ListArchives(t)];
    PathConcat([s, begun, listed], [Begin(t), ListArchives(t)], tail, readings + [Commit(t, clock)], ttl, dayOf);
    states, events := [s, begun] + tail, [Event<P>.Begin(t), ListArchives(t)] + (readings + [Commit(t, clock)]);
    assert [s, begun, listed][..2] == [s, begun];
  }
}
