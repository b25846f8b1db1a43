/** Which queued refs a pass attempts, and how long a ref can wait (internal/aip2p/sync.go:481-541, 1473-1548).

    A run is a sequence of passes. The steps of a pass are its attempts, in batch order, with any enqueues, promotions,
    migrations and sanitizings before, between and after them. No refs are given on the command line. */
module SyncScheduler {
  import opened Options
  import opened Sorting
  import opened SyncQueueFiles
  import opened SyncQueueRuns
  import opened SyncQueues
  import opened SyncRefs
  import opened Text
  import opened UrlText

  const MAX_REFS := 3

  // ---------- Collecting ----------

  function KeysOf(refs: seq<SyncRef>): (keys: seq<string>)
    ensures |keys| == |refs|
    ensures forall k :: 0 <= k < |keys| ==> keys[k] == refs[k].infoHash
  {
    seq(|refs|, k requires 0 <= k < |refs| => refs[k].infoHash)
  }

  /** readQueue: the refs of the rows, the first of each infohash not seen before. */
  function Collect(rows: seq<string>, seen: set<string>): seq<SyncRef> {
    if rows == [] then []
    else
      var init := Collect(rows[..|rows| - 1], seen);
      match RowRef(rows[|rows| - 1])
      case None => init
      case Some(ref) => if ref.infoHash in seen || ref.infoHash in KeysOf(init) then init else init + [ref]
  }

  /** A row that does not make collecting fail. */
  predicate Readable(row: string) {
    var line := Trim(row);
    line == "" || IsComment(line) || ParseSyncRef(line).Some?
  }

  predicate AllReadable(rows: seq<string>) {
    forall k :: 0 <= k < |rows| ==> Readable(rows[k])
  }

  function Contents(refs: seq<SyncRef>): seq<SyncRef> {
    if refs == [] then []
    else
      var init := Contents(refs[..|refs| - 1]);
      if IsManifest(refs[|refs| - 1]) then init else init + [refs[|refs| - 1]]
  }

  function Manifests(refs: seq<SyncRef>): seq<SyncRef> {
    if refs == [] then []
    else
      var init := Manifests(refs[..|refs| - 1]);
      if IsManifest(refs[|refs| - 1]) then init + [refs[|refs| - 1]] else init
  }

  /** The stable sort by syncRefPriority: content first, then manifests. */
  function ByPriority(refs: seq<SyncRef>): seq<SyncRef> {
    Contents(refs) + Manifests(refs)
  }

  function RealtimeRefs(q: Queues): seq<SyncRef> {
    Collect(Rows(Content(q.realtime)), {})
  }

  function HistoryRefs(q: Queues): seq<SyncRef> {
    Collect(Rows(Content(q.history)), Elements(KeysOf(RealtimeRefs(q))))
  }

  /** collectSyncRefs succeeds: every row can be read. */
  predicate Collectable(q: Queues) {
    AllReadable(Rows(Content(q.realtime))) && AllReadable(Rows(Content(q.history)))
  }

  datatype Entry = Entry(queue: Which, ref: SyncRef)

  function Entries(which: Which, refs: seq<SyncRef>): (out: seq<Entry>)
    ensures |out| == |refs|
    ensures forall k :: 0 <= k < |out| ==> out[k] == Entry(which, refs[k])
  {
    seq(|refs|, k requires 0 <= k < |refs| => Entry(which, refs[k]))
  }

  function Take(refs: seq<SyncRef>, n: nat): seq<SyncRef> {
    if |refs| > n then refs[..n] else refs
  }

  /** Slots of a pass that the realtime queue leaves free. */
  function Spare(q: Queues): nat {
    if |RealtimeRefs(q)| >= MAX_REFS then 0 else MAX_REFS - |RealtimeRefs(q)|
  }

  /** The refs one processQueue pass attempts, in order. */
  function Batch(q: Queues): seq<Entry> {
    Entries(Realtime, Take(RealtimeRefs(q), MAX_REFS)) + Entries(History, Take(ByPriority(HistoryRefs(q)), Spare(q)))
  }

  /** collectSyncRefs without command-line refs; None if some row cannot be read. */
  method CollectSyncRefs(q: Queues) returns (out: Option<(seq<SyncRef>, seq<SyncRef>)>)
    ensures out == if Collectable(q) then Some((RealtimeRefs(q), ByPriority(HistoryRefs(q)))) else None
  {
    hide Readable, RowRef, Rows, IsManifest;
    var realtime := ReadQueue(Rows(Content(q.realtime)), {});
    if realtime.None? {
      return None;
    }
    var history := ReadQueue(Rows(Content(q.history)), Elements(KeysOf(realtime.value)));
    if history.None? {
      return None;
    }
    return Some((realtime.value, ByPriority(history.value)));
  }

  method ReadQueue(rows: seq<string>, before: set<string>) returns (out: Option<seq<SyncRef>>)
    ensures out == if AllReadable(rows) then Some(Collect(rows, before)) else None
  {
    hide Readable, RowRef;
    var seen := before;
    var refs: seq<SyncRef> := [];
    for k := 0 to |rows|
      invariant forall j :: 0 <= j < k ==> Readable(rows[j])
      invariant refs == Collect(rows[..k], before)
      invariant forall key :: key in seen <==> key in before || key in KeysOf(refs)
    {
      assert rows[..k + 1][..k] == rows[..k];
      if !Readable(rows[k]) {
        return None;
      }
      var ref := RowRef(rows[k]);
      if ref.None? || ref.value.infoHash in seen {
        continue;
      }
      assert KeysOf(refs + [ref.value]) == KeysOf(refs) + [ref.value.infoHash];
      seen, refs := seen + {ref.value.infoHash}, refs + [ref.value];
    }
    assert rows[..|rows|] == rows;
    return Some(refs);
  }

  // ---------- What stands ahead of a key ----------

  /** The different keys before the first occurrence of x (all of them if x is missing). */
  function Ahead(keys: seq<string>, x: string): set<string> {
    if keys == [] then {}
    else
      var a := Ahead(keys[..|keys| - 1], x);
      if x in keys then a else a + {keys[|keys| - 1]}
  }

  lemma InSnoc(keys: seq<string>, key: string)
    requires keys != []
    ensures key in keys <==> key in keys[..|keys| - 1] || key == keys[|keys| - 1]
  {
    assert keys == keys[..|keys| - 1] + [keys[|keys| - 1]];
  }

  lemma AheadSnoc(keys: seq<string>, key: string, x: string)
    ensures Ahead(keys + [key], x) == if x in keys || x == key then Ahead(keys, x) else Ahead(keys, x) + {key}
  {
    assert (keys + [key])[..|keys|] == keys;
    InSnoc(keys + [key], x);
  }

  lemma {:induction false} AheadMissing(keys: seq<string>, x: string)
    requires x !in keys
    ensures Ahead(keys, x) == Elements(keys)
  {
    if keys != [] {
      InSnoc(keys, x);
      AheadMissing(keys[..|keys| - 1], x);
      assert keys == keys[..|keys| - 1] + [keys[|keys| - 1]];
    }
  }

  lemma {:induction false} AheadIsKeys(keys: seq<string>, x: string)
    ensures Ahead(keys, x) <= Elements(keys) && x !in Ahead(keys, x)
  {
    if keys != [] {
      InSnoc(keys, x);
      AheadIsKeys(keys[..|keys| - 1], x);
      assert keys == keys[..|keys| - 1] + [keys[|keys| - 1]];
    }
  }

  /** Dropping another key takes just that key from what stands ahead. */
  lemma {:induction false} AheadDrop(keys: seq<string>, key: string, x: string)
    requires x != key
    ensures Ahead(DropKey(keys, key), x) == Ahead(keys, x) - {key}
  {
    if keys != [] {
      var init, last := keys[..|keys| - 1], keys[|keys| - 1];
      AheadDrop(init, key, x);
      InSnoc(keys, x);
      DropKeyIn(init, key, x);
      AheadSnoc(DropKey(init, key), last, x);
    }
  }

  /** Taking out rows that do not hold x puts nothing new ahead of x. */
  lemma {:induction false} AheadStaying(rows: seq<string>, x: string)
    requires forall k :: 0 <= k < |rows| ==> !MovesKey(rows[k], x)
    ensures x in Keys(rows) <==> x in Keys(Staying(rows))
    ensures Ahead(Keys(Staying(rows)), x) <= Ahead(Keys(rows), x)
  {
    hide RowRef, Moves, MovesKey;
    if rows != [] {
      var init, last := rows[..|rows| - 1], rows[|rows| - 1];
      AheadStaying(init, x);
      MovesKeyFacts(last, x);
      assert rows == init + [last];
      KeysSnoc(init, last);
      KeysSnoc(Staying(init), last);
      if RowRef(last).Some? {
        AheadSnoc(Keys(init), RowRef(last).value.infoHash, x);
        AheadSnoc(Keys(Staying(init)), RowRef(last).value.infoHash, x);
      }
    }
  }

  // ---------- Positions in the collected lists ----------

  ghost predicate CollectedFrom(refs: seq<SyncRef>, keys: seq<string>, seen: set<string>) {
    && Distinct(KeysOf(refs))
    && (forall x :: x in KeysOf(refs) <==> x in keys && x !in seen)
    && (forall i :: 0 <= i < |refs| ==> Ahead(keys, refs[i].infoHash) - seen == Elements(KeysOf(refs)[..i]))
  }

  /** The collected list holds each unseen key once, at the place its first occurrence gives it. */
  lemma {:induction false} CollectPositions(rows: seq<string>, seen: set<string>)
    ensures CollectedFrom(Collect(rows, seen), Keys(rows), seen)
  {
    hide RowRef;
    if rows == [] {
      assert Collect(rows, seen) == [];
    } else {
      var init, last := rows[..|rows| - 1], rows[|rows| - 1];
      CollectPositions(init, seen);
      assert rows == init + [last];
      KeysSnoc(init, last);
      if RowRef(last).Some? {
        CollectStep(Collect(init, seen), Keys(init), seen, RowRef(last).value);
      }
    }
  }

  lemma CollectStep(refs: seq<SyncRef>, keys: seq<string>, seen: set<string>, ref: SyncRef)
    requires CollectedFrom(refs, keys, seen)
    ensures var more := if ref.infoHash in seen || ref.infoHash in KeysOf(refs) then refs else refs + [ref];
            CollectedFrom(more, keys + [ref.infoHash], seen)
  {
    var key := ref.infoHash;
    forall i | 0 <= i < |refs| ensures Ahead(keys + [key], refs[i].infoHash) == Ahead(keys, refs[i].infoHash) {
      assert KeysOf(refs)[i] == refs[i].infoHash;
      AheadSnoc(keys, key, refs[i].infoHash);
    }
    if !(key in seen || key in KeysOf(refs)) {
      var more := refs + [ref];
      assert KeysOf(more) == KeysOf(refs) + [key];
      AheadSnoc(keys, key, key);
      AheadMissing(keys, key);
      assert Elements(keys) - seen == Elements(KeysOf(refs));
      forall i | 0 <= i < |more| ensures Ahead(keys + [key], more[i].infoHash) - seen == Elements(KeysOf(more)[..i]) {
        if i < |refs| {
          assert KeysOf(more)[..i] == KeysOf(refs)[..i];
        } else {
          assert KeysOf(more)[..i] == KeysOf(refs);
        }
      }
    }
  }

  /** The place of a realtime ref is the number of keys ahead of it. */
  lemma RealtimePosition(q: Queues, i: nat)
    requires i < |RealtimeRefs(q)|
    ensures var x := RealtimeRefs(q)[i].infoHash;
            && x in KeysIn(q.realtime)
            && |Ahead(KeysIn(q.realtime), x)| == i
            && Ahead(KeysIn(q.realtime), x) == Elements(KeysOf(RealtimeRefs(q))[..i])
  {
    hide Rows, Collect, Keys, Ahead;
    var rows := Rows(Content(q.realtime));
    var refs := RealtimeRefs(q);
    CollectPositions(rows, {});
    assert KeysOf(refs)[i] in KeysOf(refs);
    DistinctSize(KeysOf(refs)[..i]);
    assert Ahead(Keys(rows), refs[i].infoHash) - {} == Ahead(Keys(rows), refs[i].infoHash);
  }

  // ---------- What a pass offers ----------

  /** Each collected ref is the first of the file's rows with its infohash. */
  lemma {:induction false} CollectedAreFirst(rows: seq<string>, seen: set<string>, i: nat) returns (j: nat)
    requires i < |Collect(rows, seen)|
    ensures j < |rows| && RowRef(rows[j]) == Some(Collect(rows, seen)[i])
    ensures forall m :: 0 <= m < j && RowRef(rows[m]).Some? ==>
              RowRef(rows[m]).value.infoHash != Collect(rows, seen)[i].infoHash
    decreases |rows|
  {
    hide RowRef;
    var init := rows[..|rows| - 1];
    if i < |Collect(init, seen)| {
      j := CollectedAreFirst(init, seen, i);
      assert forall m :: 0 <= m < |init| ==> init[m] == rows[m];
    } else {
      j := |rows| - 1;
      var ref := RowRef(rows[j]).value;
      CollectPositions(init, seen);
      forall m | 0 <= m < j && RowRef(rows[m]).Some? ensures RowRef(rows[m]).value.infoHash != ref.infoHash {
        KeyIn(init, RowRef(rows[m]).value.infoHash);
        assert init[m] == rows[m];
      }
    }
  }

  lemma {:induction false} KindsSplit(refs: seq<SyncRef>)
    ensures multiset(Contents(refs)) + multiset(Manifests(refs)) == multiset(refs)
    ensures |Contents(refs)| + |Manifests(refs)| == |refs|
    ensures forall k :: 0 <= k < |Contents(refs)| ==> !IsManifest(Contents(refs)[k])
    ensures forall k :: 0 <= k < |Manifests(refs)| ==> IsManifest(Manifests(refs)[k])
  {
    hide IsManifest;
    if refs != [] {
      var init, last := refs[..|refs| - 1], refs[|refs| - 1];
      KindsSplit(init);
      assert refs == init + [last];
    }
  }

  /** The order by priority loses and repeats nothing, and no content ref stands behind a manifest. */
  lemma PriorityIsSorted(refs: seq<SyncRef>)
    ensures multiset(ByPriority(refs)) == multiset(refs) && |ByPriority(refs)| == |refs|
    ensures forall i, j :: 0 <= i < j < |refs| && IsManifest(ByPriority(refs)[i]) ==> IsManifest(ByPriority(refs)[j])
  {
    KindsSplit(refs);
    hide IsManifest, Contents, Manifests;
  }

  /** It is stable: refs of one kind keep their order. */
  lemma {:induction false} PriorityIsStable(refs: seq<SyncRef>, more: seq<SyncRef>)
    ensures Contents(refs + more) == Contents(refs) + Contents(more)
    ensures Manifests(refs + more) == Manifests(refs) + Manifests(more)
    decreases |more|
  {
    hide IsManifest;
    if more == [] {
      assert refs + more == refs;
    } else {
      var init := more[..|more| - 1];
      assert (refs + more)[..|refs + more| - 1] == refs + init;
      PriorityIsStable(refs, init);
    }
  }

  /** A pass attempts three refs, or all there are: realtime refs before history refs, and of the history refs those first by
      priority. */
  lemma BatchIsFull(q: Queues)
    ensures |Batch(q)| == if |RealtimeRefs(q)| + |HistoryRefs(q)| < 3 then |RealtimeRefs(q)| + |HistoryRefs(q)| else 3
    ensures forall k :: 0 <= k < |Batch(q)| && k < |RealtimeRefs(q)| ==> Batch(q)[k] == Entry(Realtime, RealtimeRefs(q)[k])
    ensures forall k :: |RealtimeRefs(q)| <= k < |Batch(q)| ==>
              k - |RealtimeRefs(q)| < |ByPriority(HistoryRefs(q))|
              && Batch(q)[k] == Entry(History, ByPriority(HistoryRefs(q))[k - |RealtimeRefs(q)|])
  {
    hide RealtimeRefs, HistoryRefs, ByPriority;
    PriorityIsSorted(HistoryRefs(q));
  }

  /** No infohash is attempted twice in a pass. */
  lemma BatchIsDistinct(q: Queues)
    ensures forall i, j :: 0 <= i < j < |Batch(q)| ==> Batch(q)[i].ref.infoHash != Batch(q)[j].ref.infoHash
  {
    var r, h := RealtimeRefs(q), HistoryRefs(q);
    CollectPositions(Rows(Content(q.realtime)), {});
    CollectPositions(Rows(Content(q.history)), Elements(KeysOf(r)));
    BatchIsFull(q);
    PriorityKeys(h);
    hide RealtimeRefs, HistoryRefs, ByPriority, Batch, Rows, Keys, Ahead;
    var b := ByPriority(h);
    forall i, j | 0 <= i < j < |Batch(q)| ensures Batch(q)[i].ref.infoHash != Batch(q)[j].ref.infoHash {
      if j < |r| {
        assert KeysOf(r)[i] != KeysOf(r)[j];
      } else if i < |r| {
        assert b[j - |r|] in b && KeysOf(r)[i] in KeysOf(r);
      }
    }
  }

  lemma PriorityKeys(refs: seq<SyncRef>)
    requires Distinct(KeysOf(refs))
    ensures forall i, j :: 0 <= i < j < |ByPriority(refs)| ==> ByPriority(refs)[i].infoHash != ByPriority(refs)[j].infoHash
    ensures forall ref <- ByPriority(refs) :: ref.infoHash in KeysOf(refs)
  {
    var out := ByPriority(refs);
    PriorityIsSorted(refs);
    hide ByPriority;
    forall ref | ref in out ensures ref in refs {
      assert multiset(out)[ref] > 0;
    }
    forall ref | ref in out ensures ref.infoHash in KeysOf(refs) {
      var k :| 0 <= k < |refs| && refs[k] == ref;
      assert KeysOf(refs)[k] == ref.infoHash;
    }
    forall i, j | 0 <= i < j < |out| ensures out[i].infoHash != out[j].infoHash {
      assert out[i] in out && out[j] in out;
      var a :| 0 <= a < |refs| && refs[a] == out[i];
      var b :| 0 <= b < |refs| && refs[b] == out[j];
      if a == b {
        Twice(out, i, j);
        Once(refs, a);
      } else if a < b {
        assert KeysOf(refs)[a] != KeysOf(refs)[b];
      } else {
        assert KeysOf(refs)[b] != KeysOf(refs)[a];
      }
    }
  }

  lemma Twice(out: seq<SyncRef>, i: nat, j: nat)
    requires i < j < |out| && out[i] == out[j]
    ensures multiset(out)[out[i]] >= 2
  {
    assert out == out[..j] + [out[j]] + out[j + 1..];
    assert out[..j][i] in out[..j];
    assert multiset(out) == multiset(out[..j]) + multiset{out[j]} + multiset(out[j + 1..]);
    assert multiset(out[..j])[out[i]] >= 1;
  }

  lemma Once(refs: seq<SyncRef>, a: nat)
    requires Distinct(KeysOf(refs)) && a < |refs|
    ensures multiset(refs)[refs[a]] == 1
  {
    var x := refs[a];
    assert refs == refs[..a] + [x] + refs[a + 1..];
    assert multiset(refs) == multiset(refs[..a]) + multiset{x} + multiset(refs[a + 1..]);
    forall k | 0 <= k < |refs| && k != a ensures refs[k] != x {
      if k < a { assert KeysOf(refs)[k] != KeysOf(refs)[a]; } else { assert KeysOf(refs)[a] != KeysOf(refs)[k]; }
    }
    assert x !in refs[..a] && x !in refs[a + 1..];
  }
}
