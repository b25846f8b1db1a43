/** Stored online proofs: live files and daily archives that overlap, and a cache over both
    (internal/aip2p/credit_store.go). */
module CreditStore {
  import opened CreditProof
  import opened Options
  import opened Sorting
  import opened Text

  /** Days since the Unix epoch, UTC. */
  type Day = int

  const DAY := 24 * HOUR

  function DayOf(p: Proof): Day {
    p.start / DAY
  }

  /** The proofs of one day, by id. */
  type Table = map<string, Proof>

  /** Live proofs lie in one directory per day, in files named after their id; archives are one file per day. */
  datatype Disk = Disk(live: map<Day, Table>, archives: map<Day, seq<Proof>>)

  /** How stored texts relate: ids come from key and window, and equal window texts mean equal windows. `size` is the bytes
      of a proof's JSON line, without the newline. */
  datatype Codec = Codec(valid: Proof -> bool, idOf: (string, int) -> string, startOf: string -> int, size: Proof -> nat)

  /** What ValidateOnlineProof guarantees of a proof and this store relies on. */
  predicate Admissible(c: Codec, p: Proof) {
    WindowOk(p) && Trim(p.id) == c.idOf(Norm(p.pubKey), p.start) && p.start == c.startOf(p.startText)
  }

  ghost predicate CodecOk(c: Codec) {
    forall p :: c.valid(p) ==> Admissible(c, p)
  }

  // ---------- What is stored ----------

  /** The table a list of proofs spells; later entries win, as in mergeProofs. */
  function TableOf(proofs: seq<Proof>): Table {
    if proofs == [] then map[]
    else TableOf(proofs[..|proofs| - 1])[proofs[|proofs| - 1].id := proofs[|proofs| - 1]]
  }

  predicate Keyed(t: Table) {
    forall id <- t :: t[id].id == id
  }

  function LiveTable(disk: Disk, day: Day): Table {
    if day in disk.live then disk.live[day] else map[]
  }

  function Archived(disk: Disk, day: Day): seq<Proof> {
    if day in disk.archives then disk.archives[day] else []
  }

  /** What a day holds: live proofs win over archived ones with the same id. */
  function DayTable(disk: Disk, day: Day): Table {
    TableOf(Archived(disk, day)) + LiveTable(disk, day)
  }

  ghost predicate DistinctIds(proofs: seq<Proof>) {
    forall i, j :: 0 <= i < j < |proofs| ==> proofs[i].id != proofs[j].id
  }

  ghost predicate DiskOk(c: Codec, disk: Disk) {
    && (forall day <- disk.live :: Keyed(disk.live[day]))
    && (forall day <- disk.archives :: DistinctIds(disk.archives[day]))
    && (forall day :: OfThatDay(c, DayTable(disk, day), day))
  }

  /** A day holds the ids of both its places, and a live proof hides an archived one with its id. */
  lemma LiveProofsWin(disk: Disk, day: Day, id: string)
    ensures id in DayTable(disk, day) <==> id in LiveTable(disk, day) || id in TableOf(Archived(disk, day))
    ensures id in LiveTable(disk, day) ==> DayTable(disk, day)[id] == LiveTable(disk, day)[id]
    ensures id !in LiveTable(disk, day) && id in TableOf(Archived(disk, day)) ==>
              DayTable(disk, day)[id] == TableOf(Archived(disk, day))[id]
  {}

  /** Every proof in the table is admissible and starts on the day. */
  ghost predicate OfThatDay(c: Codec, t: Table, day: Day) {
    forall id <- t :: DayOf(t[id]) == day && Admissible(c, t[id])
  }

  lemma {:induction false} TableKeyed(proofs: seq<Proof>)
    ensures Keyed(TableOf(proofs))
  {
    if proofs != [] {
      TableKeyed(proofs[..|proofs| - 1]);
    }
  }

  lemma {:induction false} TableOfDistinct(proofs: seq<Proof>)
    requires DistinctIds(proofs)
    ensures TableOf(proofs).Values == Elements(proofs)
    ensures forall k :: 0 <= k < |proofs| ==> proofs[k].id in TableOf(proofs) && TableOf(proofs)[proofs[k].id] == proofs[k]
  {
    if proofs != [] {
      var init, last := proofs[..|proofs| - 1], proofs[|proofs| - 1];
      TableOfDistinct(init);
      TableKeyed(init);
      var t := TableOf(proofs);
      assert Elements(proofs) == Elements(init) + {last};
      forall p | p in t.Values ensures p in Elements(proofs) {
        var id :| id in t && t[id] == p;
        if p != last { assert p in TableOf(init).Values; }
      }
      forall k | 0 <= k < |proofs| ensures proofs[k].id in t && t[proofs[k].id] == proofs[k] {
        if k < |init| { assert init[k] == proofs[k] && init[k].id != last.id; }
      }
      assert forall p :: p in Elements(proofs) ==> p in proofs;
    }
  }

  lemma DayTableKeyed(c: Codec, disk: Disk, day: Day)
    requires DiskOk(c, disk)
    ensures Keyed(DayTable(disk, day))
  {
    TableKeyed(Archived(disk, day));
  }

  // ---------- Sorted readings ----------

  /** sortProofs: by window start text, then by id. */
  predicate ProofLess(a: Proof, b: Proof) {
    StringLess(a.startText, b.startText) || (a.startText == b.startText && StringLess(a.id, b.id))
  }

  lemma ProofOrder(s: set<Proof>)
    requires forall a, b :: a in s && b in s && a.startText == b.startText && a.id == b.id ==> a == b
    ensures StrictOrderOn(s, ProofLess)
  {
    hide StringLess;
    forall a, b | a in s && b in s
      ensures !ProofLess(a, a) && (a == b || ProofLess(a, b) || ProofLess(b, a))
    {
      StringLessTotal(a.startText, b.startText);
      StringLessTotal(a.id, b.id);
    }
    forall a, b, d | a in s && b in s && d in s && ProofLess(a, b) && ProofLess(b, d)
      ensures ProofLess(a, d)
    {
      if StringLess(a.startText, b.startText) && StringLess(b.startText, d.startText) {
        StringLessTransitive(a.startText, b.startText, d.startText);
      }
      if StringLess(a.id, b.id) && StringLess(b.id, d.id) {
        StringLessTransitive(a.id, b.id, d.id);
      }
    }
  }

  lemma TableOrder(t: Table)
    requires Keyed(t)
    ensures StrictOrderOn(t.Values, ProofLess)
  {
    ProofOrder(t.Values);
  }

  /** `out` is the sorted reading of a table. */
  ghost predicate IsListing(out: seq<Proof>, t: Table) {
    StrictlySorted(out, ProofLess) && Elements(out) == t.Values
  }

  /** In a listing no proof starts before an earlier one, by the text of its start, and proofs of one start stand by id. */
  lemma ListingIsByStart(out: seq<Proof>, t: Table, i: nat, j: nat)
    requires IsListing(out, t) && i < j < |out|
    ensures !StringLess(out[j].startText, out[i].startText)
    ensures out[i].startText == out[j].startText ==> StringLess(out[i].id, out[j].id)
  {
    hide StringLess;
    assert ProofLess(out[i], out[j]);
    StringLessTotal(out[i].startText, out[j].startText);
  }

  lemma ListingIsUnique(a: seq<Proof>, b: seq<Proof>, t: Table)
    requires Keyed(t) && IsListing(a, t) && IsListing(b, t)
    ensures a == b
  {
    TableOrder(t);
    SortedListingUnique(a, b, ProofLess);
  }

  /** Writing a reading down and reading it back as a table loses nothing. */
  lemma TableOfListing(out: seq<Proof>, t: Table)
    requires Keyed(t) && IsListing(out, t)
    ensures DistinctIds(out) && TableOf(out) == t
  {
    hide ProofLess;
    TableOrder(t);
    SortedIsDistinct(out, ProofLess);
    forall i, j | 0 <= i < j < |out| ensures out[i].id != out[j].id {
      assert out[i] in Elements(out) && out[j] in Elements(out);
    }
    TableOfDistinct(out);
    TableKeyed(out);
    SameValuesSameTable(TableOf(out), t);
  }

  lemma SameValuesSameTable(a: Table, b: Table)
    requires Keyed(a) && Keyed(b) && a.Values == b.Values
    ensures a == b
  {
    forall id | id in a ensures id in b && b[id] == a[id] {
      assert a[id] in b.Values;
    }
    forall id | id in b ensures id in a {
      assert b[id] in a.Values;
    }
  }

  /** loadLiveProofs, mergeProofs: collect a table's proofs in the order the directory or map gives them, then sort. */
  method ListTable(t: Table) returns (out: seq<Proof>)
    requires Keyed(t)
    ensures IsListing(out, t)
  {
    hide ProofLess;
    var found: seq<Proof> := [];
    var ids := t.Keys;
    while ids != {}
      invariant ids <= t.Keys
      invariant Distinct(found) && forall p :: p in found <==> p.id in t && p.id !in ids && t[p.id] == p
      decreases ids
    {
      var id := Pick(ids);
      ids := ids - {id};
      assert t[id] !in found;
      found := found + [t[id]];
    }
    assert Elements(found) == t.Values by {
      forall p | p in t.Values ensures p in Elements(found) {
        var id :| id in t && t[id] == p;
        assert p in found;
      }
    }
    TableOrder(t);
    out := Sort(found, ProofLess);
  }

  /** mergeProofs: one pass over each list into a map, right over left. */
  method MergeProofs(left: seq<Proof>, right: seq<Proof>) returns (out: seq<Proof>)
    ensures IsListing(out, TableOf(left) + TableOf(right))
  {
    var seen: Table := map[];
    for k := 0 to |left|
      invariant seen == TableOf(left[..k])
    {
      assert left[..k + 1][..k] == left[..k];
      seen := seen[left[k].id := left[k]];
    }
    assert left[..|left|] == left;
    ghost var base := seen;
    for k := 0 to |right|
      invariant seen == base + TableOf(right[..k])
    {
      assert right[..k + 1][..k] == right[..k];
      seen := seen[right[k].id := right[k]];
    }
    assert right[..|right|] == right;
    TableKeyed(left);
    TableKeyed(right);
    out := ListTable(seen);
  }

  // ---------- Reading a day ----------

  /** The scanner gets past the proof's line in an archive. */
  predicate Fits(c: Codec, p: Proof) {
    c.size(p) < MAX_SCAN_TOKEN
  }

  /** The archive of the day can be read. */
  predicate ArchiveFits(c: Codec, disk: Disk, day: Day) {
    forall k :: 0 <= k < |Archived(disk, day)| ==> Fits(c, Archived(disk, day)[k])
  }

  predicate LiveFits(c: Codec, disk: Disk, day: Day) {
    forall id <- LiveTable(disk, day) :: Fits(c, LiveTable(disk, day)[id])
  }

  /** What loadProofsByDateFromDisk gives: live files are read whole, archives line by line. */
  function DayReading(c: Codec, disk: Disk, day: Day): Option<Table> {
    if ArchiveFits(c, disk, day) then Some(DayTable(disk, day)) else None
  }

  /** Every archive can be read, which loading all days needs. */
  predicate StoreReadable(c: Codec, disk: Disk) {
    forall day <- disk.archives :: ArchiveFits(c, disk, day)
  }

  /** loadArchivedProofs; None is the scanner's error. */
  method LoadArchived(disk: Disk, day: Day, c: Codec) returns (out: Option<seq<Proof>>)
    ensures out == if ArchiveFits(c, disk, day) then Some(Archived(disk, day)) else None
  {
    var archived := Archived(disk, day);
    for k := 0 to |archived|
      invariant forall j :: 0 <= j < k ==> Fits(c, archived[j])
    {
      if c.size(archived[k]) >= MAX_SCAN_TOKEN {
        return None;
      }
    }
    return Some(archived);
  }

  /** loadProofsByDateFromDisk: live proofs first, then archived ones whose id has not been seen. */
  method LoadDay(disk: Disk, day: Day, c: Codec) returns (out: Option<seq<Proof>>)
    requires DiskOk(c, disk)
    ensures out.Some? <==> DayReading(c, disk, day).Some?
    ensures out.Some? ==> IsListing(out.value, DayReading(c, disk, day).value)
  {
    hide ProofLess, Admissible, ArchiveFits;
    var seen := LiveTable(disk, day);
    var archived := Archived(disk, day);
    var lines := LoadArchived(disk, day, c);
    if lines.None? {
      return None;
    }
    ghost var live := seen;
    for k := 0 to |archived|
      invariant seen == TableOf(archived[..k]) + live
    {
      assert archived[..k + 1][..k] == archived[..k];
      FreshInPrefix(archived, k);
      if archived[k].id !in seen {
        seen := seen[archived[k].id := archived[k]];
      }
    }
    assert archived[..|archived|] == archived;
    DayTableKeyed(c, disk, day);
    var listing := ListTable(seen);
    return Some(listing);
  }

  lemma FreshInPrefix(proofs: seq<Proof>, k: nat)
    requires DistinctIds(proofs) && k < |proofs|
    ensures proofs[k].id !in TableOf(proofs[..k])
  {
    hide TableOf;
    var before := proofs[..k];
    var t := TableOf(before);
    TableOfDistinct(before);
    TableKeyed(before);
    forall id | id in t ensures id != proofs[k].id {
      assert t[id] in t.Values && t[id] in Elements(before);
      var j :| 0 <= j < |before| && before[j] == t[id];
      assert proofs[j].id == id;
    }
  }

  // ---------- Archiving ----------

  /** Archiving one day: the merge is written before the live directory goes. */
  function AfterArchiveWrite(disk: Disk, day: Day, merged: seq<Proof>): Disk {
    disk.(archives := disk.archives[day := merged])
  }

  function AfterArchive(disk: Disk, day: Day, merged: seq<Proof>): Disk {
    Disk(disk.live - {day}, disk.archives[day := merged])
  }

  /** What the files of every day hold, whether or not it can be read. */
  ghost predicate SameTables(disk: Disk, disk': Disk) {
    forall day :: DayTable(disk', day) == DayTable(disk, day)
  }

  /** The archived day's own table: the merge overlaid with live files that are already in it, or with none. */
  lemma ArchivedTable(disk: Disk, day: Day, merged: seq<Proof>)
    requires TableOf(merged) == DayTable(disk, day)
    ensures DayTable(AfterArchiveWrite(disk, day, merged), day) == DayTable(disk, day)
    ensures DayTable(AfterArchive(disk, day, merged), day) == DayTable(disk, day)
  {
    hide TableOf;
    assert DayTable(disk, day) + LiveTable(disk, day) == DayTable(disk, day);
    assert DayTable(disk, day) + map[] == DayTable(disk, day);
  }

  lemma OtherTables(disk: Disk, day: Day, merged: seq<Proof>, d: Day)
    requires d != day
    ensures DayTable(AfterArchiveWrite(disk, day, merged), d) == DayTable(disk, d)
    ensures DayTable(AfterArchive(disk, day, merged), d) == DayTable(disk, d)
  {
    hide TableOf;
  }

  lemma ArchiveTables(c: Codec, disk: Disk, day: Day, merged: seq<Proof>)
    requires DiskOk(c, disk) && IsListing(merged, DayTable(disk, day))
    ensures DistinctIds(merged)
    ensures SameTables(disk, AfterArchiveWrite(disk, day, merged)) && SameTables(disk, AfterArchive(disk, day, merged))
  {
    hide DiskOk, IsListing, DistinctIds, TableOf, DayTable, Keyed;
    DayTableKeyed(c, disk, day);
    TableOfListing(merged, DayTable(disk, day));
    var halfway, done := AfterArchiveWrite(disk, day, merged), AfterArchive(disk, day, merged);
    forall d ensures DayTable(halfway, d) == DayTable(disk, d) && DayTable(done, d) == DayTable(disk, d) {
      if d == day {
        ArchivedTable(disk, day, merged);
      } else {
        OtherTables(disk, day, merged, d);
      }
    }
  }

  /** Every day reads as before, or fails as before. */
  ghost predicate SameReadings(c: Codec, disk: Disk, disk': Disk) {
    forall day :: DayReading(c, disk', day) == DayReading(c, disk, day)
  }

  lemma MergedFits(c: Codec, disk: Disk, day: Day, merged: seq<Proof>)
    requires DiskOk(c, disk) && IsListing(merged, DayTable(disk, day)) && ArchiveFits(c, disk, day)
    ensures (forall k :: 0 <= k < |merged| ==> Fits(c, merged[k])) <==> LiveFits(c, disk, day)
  {
    hide Admissible, ProofLess, TableOf, Fits, OfThatDay;
    var t, live := DayTable(disk, day), LiveTable(disk, day);
    TableOfDistinct(Archived(disk, day));
    if LiveFits(c, disk, day) {
      forall k | 0 <= k < |merged| ensures Fits(c, merged[k]) {
        assert merged[k] in t.Values;
        var id :| id in t && t[id] == merged[k];
        if id !in live {
          assert t[id] in TableOf(Archived(disk, day)).Values;
          assert t[id] in Elements(Archived(disk, day));
        }
      }
    }
    if forall k :: 0 <= k < |merged| ==> Fits(c, merged[k]) {
      forall id | id in live ensures Fits(c, live[id]) {
        assert t[id] == live[id] && t[id] in t.Values && t[id] in Elements(merged);
      }
    }
  }

  lemma ArchivesAfter(disk: Disk, day: Day, merged: seq<Proof>, d: Day)
    ensures Archived(AfterArchiveWrite(disk, day, merged), d) == Archived(AfterArchive(disk, day, merged), d)
         == if d == day then merged else Archived(disk, d)
  {}

  /** Archiving a day whose archive can be read never changes what the files hold. It is invisible to readers of every day,
      also at the point between its two steps, if and only if each live proof of the day fits on a line; otherwise that day
      cannot be read any more, and the others read as before. */
  lemma ArchiveDayInvisible(c: Codec, disk: Disk, day: Day, merged: seq<Proof>)
    requires DiskOk(c, disk) && IsListing(merged, DayTable(disk, day)) && ArchiveFits(c, disk, day)
    ensures SameTables(disk, AfterArchiveWrite(disk, day, merged)) && DiskOk(c, AfterArchiveWrite(disk, day, merged))
    ensures SameTables(disk, AfterArchive(disk, day, merged)) && DiskOk(c, AfterArchive(disk, day, merged))
    ensures SameReadings(c, disk, AfterArchiveWrite(disk, day, merged)) <==> LiveFits(c, disk, day)
    ensures SameReadings(c, disk, AfterArchive(disk, day, merged)) <==> LiveFits(c, disk, day)
    ensures ArchiveFits(c, AfterArchive(disk, day, merged), day) <==> LiveFits(c, disk, day)
    ensures forall d :: d != day ==>
              DayReading(c, AfterArchive(disk, day, merged), d) == DayReading(c, disk, d)
  {
    hide Admissible, ProofLess, DayTable, OfThatDay, IsListing, DistinctIds, Keyed, Fits, LiveFits;
    ArchiveTables(c, disk, day, merged);
    MergedFits(c, disk, day, merged);
    forall d { ArchivesAfter(disk, day, merged, d); }
    var halfway, done := AfterArchiveWrite(disk, day, merged), AfterArchive(disk, day, merged);
    ArchivesAfter(disk, day, merged, day);
    assert Archived(halfway, day) == merged && Archived(done, day) == merged;
    assert ArchiveFits(c, halfway, day) <==> LiveFits(c, disk, day);
    assert ArchiveFits(c, done, day) <==> LiveFits(c, disk, day);
    assert SameReadings(c, disk, done) ==> DayReading(c, done, day).Some?;
    assert SameReadings(c, disk, halfway) ==> DayReading(c, halfway, day).Some?;
  }

  /** While the day can be read, it reads as the same sequence, whatever archiving did in between. */
  lemma ArchivingKeepsReadings(c: Codec, disk: Disk, disk': Disk, day: Day, before: seq<Proof>, after: seq<Proof>)
    requires DiskOk(c, disk) && SameTables(disk, disk')
    requires IsListing(before, DayTable(disk, day)) && IsListing(after, DayTable(disk', day))
    ensures before == after
  {
    DayTableKeyed(c, disk, day);
    ListingIsUnique(before, after, DayTable(disk, day));
  }

  // ---------- Saving ----------

  function AfterSave(disk: Disk, p: Proof): Disk {
    var day := DayOf(p);
    disk.(live := disk.live[day := LiveTable(disk, day)[p.id := p]])
  }

  lemma SaveTables(disk: Disk, p: Proof, day: Day)
    ensures DayTable(AfterSave(disk, p), day) == if day == DayOf(p) then DayTable(disk, day)[p.id := p] else DayTable(disk, day)
  {
    hide TableOf, DayOf;
    var disk' := AfterSave(disk, p);
    assert Archived(disk', day) == Archived(disk, day);
    assert LiveTable(disk', day) == if day == DayOf(p) then LiveTable(disk, day)[p.id := p] else LiveTable(disk, day);
  }

  lemma SaveAddsOne(c: Codec, disk: Disk, p: Proof)
    requires DiskOk(c, disk) && Admissible(c, p)
    ensures DiskOk(c, AfterSave(disk, p))
    ensures DayTable(AfterSave(disk, p), DayOf(p)) == DayTable(disk, DayOf(p))[p.id := p]
    ensures forall day :: day != DayOf(p) ==> DayTable(AfterSave(disk, p), day) == DayTable(disk, day)
  {
    hide Admissible, DayTable, TableOf;
    forall day { SaveTables(disk, p, day); }
    forall day ensures OfThatDay(c, DayTable(AfterSave(disk, p), day), day) {
      assert OfThatDay(c, DayTable(disk, day), day);
    }
  }

  /** Saving a proof that is stored already, live or archived, adds no id to its day. */
  lemma SavingAgainAddsNoId(c: Codec, disk: Disk, p: Proof)
    requires DiskOk(c, disk) && Admissible(c, p) && p.id in DayTable(disk, DayOf(p))
    ensures forall day :: DayTable(AfterSave(disk, p), day).Keys == DayTable(disk, day).Keys
  {
    SaveAddsOne(c, disk, p);
  }

  lemma SavedIsReadable(c: Codec, disk: Disk, p: Proof)
    requires StoreReadable(c, disk)
    ensures StoreReadable(c, AfterSave(disk, p)) && forall d :: ArchiveFits(c, AfterSave(disk, p), d)
  {
    hide Fits;
    forall d ensures ArchiveFits(c, AfterSave(disk, p), d) {
      assert Archived(AfterSave(disk, p), d) == Archived(disk, d);
      NoArchiveFits(c, disk, d);
    }
  }

  /** One proof too long for a line: stored live it is read like any other, archived with its day it makes every load of
      the store fail. */
  lemma OverlongProofBlocksStore(c: Codec, disk: Disk, p: Proof, merged: seq<Proof>)
    requires DiskOk(c, disk) && StoreReadable(c, disk) && Admissible(c, p) && !Fits(c, p)
    requires IsListing(merged, DayTable(AfterSave(disk, p), DayOf(p)))
    ensures StoreReadable(c, AfterSave(disk, p)) && DayReading(c, AfterSave(disk, p), DayOf(p)).Some?
    ensures DayReading(c, AfterArchive(AfterSave(disk, p), DayOf(p), merged), DayOf(p)).None?
    ensures !StoreReadable(c, AfterArchive(AfterSave(disk, p), DayOf(p), merged))
  {
    hide Admissible, IsListing, DayTable, Fits, DiskOk;
    var day, saved := DayOf(p), AfterSave(disk, p);
    SaveAddsOne(c, disk, p);
    SavedIsReadable(c, disk, p);
    assert LiveTable(saved, day)[p.id] == p;
    ArchiveDayInvisible(c, saved, day, merged);
  }

  // ---------- All proofs ----------

  function DaysOf(disk: Disk): set<Day> {
    disk.live.Keys + disk.archives.Keys
  }

  ghost function AllProofs(disk: Disk): set<Proof> {
    set day, id | day in DaysOf(disk) && id in DayTable(disk, day) :: DayTable(disk, day)[id]
  }

  lemma AllProofsAre(disk: Disk, p: Proof)
    ensures p in AllProofs(disk) <==> exists day, id :: id in DayTable(disk, day) && DayTable(disk, day)[id] == p
  {
    if day, id :| id in DayTable(disk, day) && DayTable(disk, day)[id] == p {
      assert day in DaysOf(disk);
    }
  }

  lemma SameTablesSameProofs(disk: Disk, disk': Disk)
    requires SameTables(disk, disk')
    ensures AllProofs(disk') == AllProofs(disk)
  {
    forall p ensures p in AllProofs(disk') <==> p in AllProofs(disk) {
      AllProofsAre(disk, p);
      AllProofsAre(disk', p);
    }
  }

  /** A complete sorted reading of live and archived proofs. */
  ghost predicate Fresh(disk: Disk, out: seq<Proof>) {
    StrictlySorted(out, ProofLess) && Elements(out) == AllProofs(disk)
  }

  lemma FreshAgain(disk: Disk, disk': Disk, out: seq<Proof>)
    requires SameTables(disk, disk')
    ensures Fresh(disk', out) <==> Fresh(disk, out)
  {
    SameTablesSameProofs(disk, disk');
  }

  lemma AllProofsOrder(c: Codec, disk: Disk)
    requires DiskOk(c, disk)
    ensures StrictOrderOn(AllProofs(disk), ProofLess)
  {
    hide WindowOk, Norm, Trim;
    forall a, b | a in AllProofs(disk) && b in AllProofs(disk) && a.startText == b.startText && a.id == b.id
      ensures a == b
    {
      AllProofsAre(disk, a);
      AllProofsAre(disk, b);
      var da, ia :| ia in DayTable(disk, da) && DayTable(disk, da)[ia] == a;
      var db, ib :| ib in DayTable(disk, db) && DayTable(disk, db)[ib] == b;
      DayTableKeyed(c, disk, da);
      DayTableKeyed(c, disk, db);
      assert da == DayOf(a) == DayOf(b) == db;
    }
    ProofOrder(AllProofs(disk));
  }

  function OfDay(proofs: seq<Proof>, day: Day): seq<Proof> {
    if proofs == [] then []
    else
      var init, last := proofs[..|proofs| - 1], proofs[|proofs| - 1];
      OfDay(init, day) + if DayOf(last) == day then [last] else []
  }

  lemma {:induction false} OfDaySorted(proofs: seq<Proof>, day: Day)
    requires StrictlySorted(proofs, ProofLess)
    ensures StrictlySorted(OfDay(proofs, day), ProofLess)
    ensures forall p :: p in OfDay(proofs, day) <==> p in proofs && DayOf(p) == day
  {
    hide ProofLess;
    if proofs != [] {
      var init, last := proofs[..|proofs| - 1], proofs[|proofs| - 1];
      assert proofs == init + [last];
      OfDaySorted(init, day);
      forall k | 0 <= k < |OfDay(init, day)| ensures ProofLess(OfDay(init, day)[k], last) {
        assert OfDay(init, day)[k] in init;
      }
    }
  }

  /** The cached proofs of a day are exactly that day's reading from disk. */
  lemma CachedDayIsListing(c: Codec, disk: Disk, cached: seq<Proof>, day: Day)
    requires DiskOk(c, disk) && Fresh(disk, cached)
    ensures IsListing(OfDay(cached, day), DayTable(disk, day))
  {
    hide Admissible, ProofLess;
    OfDaySorted(cached, day);
    assert forall p :: p in cached <==> p in Elements(cached);
    ProofsOfDay(c, disk, day);
  }

  lemma ProofsOfDay(c: Codec, disk: Disk, day: Day)
    requires DiskOk(c, disk)
    ensures forall p :: p in DayTable(disk, day).Values <==> p in AllProofs(disk) && DayOf(p) == day
  {
    hide Admissible;
    var t := DayTable(disk, day);
    forall p | p in t.Values ensures p in AllProofs(disk) && DayOf(p) == day {
      var id :| id in t && t[id] == p;
      AllProofsAre(disk, p);
    }
    forall p | p in AllProofs(disk) && DayOf(p) == day ensures p in t.Values {
      AllProofsAre(disk, p);
      var d, id :| id in DayTable(disk, d) && DayTable(disk, d)[id] == p;
      assert d == day;
    }
  }

  // ---------- The store ----------

  datatype SaveResult = Saved | Invalid | Duplicate

  lemma DayTableIs(disk: Disk, day: Day)
    ensures DayTable(disk, day) == TableOf(Archived(disk, day)) + LiveTable(disk, day)
  {}

  lemma SameAsItself(disk: Disk)
    ensures SameTables(disk, disk)
  {}

  class Store {
    const codec: Codec
    const ttl: int
    var disk: Disk
    var cached: seq<Proof>
    var byDate: map<Day, seq<Proof>>
    var dirty: bool
    var loadedAt: Option<int>

    ghost predicate Valid()
      reads this
    {
      && CodecOk(codec) && DiskOk(codec, disk)
      && (!dirty && loadedAt.Some? ==>
            && Fresh(disk, cached)
            && forall day :: OnDate(byDate, day) == OfDay(cached, day))
    }

    constructor (codec: Codec, ttl: int)
      requires CodecOk(codec)
      ensures Valid() && this.codec == codec && disk == Disk(map[], map[])
    {
      this.codec := codec;
      this.ttl := ttl;
      disk := Disk(map[], map[]);
      cached, byDate := [], map[];
      dirty := true;
      loadedAt := None;
    }

    method SaveProof(p: Proof) returns (result: SaveResult)
      requires Valid()
      modifies this`disk, this`dirty
      ensures Valid()
      ensures result.Invalid? <==> !codec.valid(p)
      ensures result.Duplicate? <==> codec.valid(p) && p.id in LiveTable(old(disk), DayOf(p))
      ensures disk == if result.Saved? then AfterSave(old(disk), p) else old(disk)
    {
      hide Admissible, Fresh;
      if !codec.valid(p) {
        return Invalid;
      }
      var day := DayOf(p);
      if p.id in LiveTable(disk, day) {
        return Duplicate;
      }
      SaveAddsOne(codec, disk, p);
      disk := disk.(live := disk.live[day := LiveTable(disk, day)[p.id := p]]);
      dirty := true;
      return Saved;
    }

    /** One day of ArchiveProofs' loop; ok is false when the day has live proofs and its archive cannot be read. */
    method ArchiveDay(day: Day) returns (ok: bool, count: nat)
      requires Valid()
      modifies this`disk
      ensures Valid() && SameTables(old(disk), disk)
      ensures ok <==> LiveTable(old(disk), day) == map[] || ArchiveFits(codec, old(disk), day)
      ensures count == if ok then |LiveTable(old(disk), day)| else 0
      ensures !ok ==> disk == old(disk)
      ensures disk.live == if count == 0 then old(disk).live else old(disk).live - {day}
      ensures forall d :: ArchiveFits(codec, disk, d) <==>
                ArchiveFits(codec, old(disk), d) && (d == day && count > 0 ==> LiveFits(codec, old(disk), day))
    {
      hide Admissible, IsListing, CodecOk, OfDay, TableOf, DayTable, SameTables, Fresh, ArchiveFits, LiveFits;
      var live := LiveTable(disk, day);
      if |live| == 0 {
        SameAsItself(disk);
        return true, 0;
      }
      var existing := LoadArchived(disk, day, codec);
      if existing.None? {
        SameAsItself(disk);
        return false, 0;
      }
      var proofs := ListTable(live);
      TableOfListing(proofs, live);
      var merged := MergeProofs(existing.value, proofs);
      DayTableIs(disk, day);
      hide DiskOk;
      ArchiveDayInvisible(codec, disk, day, merged);
      OtherArchives(codec, disk, day, merged);
      FreshAgain(disk, AfterArchive(disk, day, merged), cached);
      disk := disk.(archives := disk.archives[day := merged]);
      disk := disk.(live := disk.live - {day});
      return true, |live|;
    }

    /** ArchiveProofs: the live days before the cutoff are archived in order, up to the first whose archive cannot be read.
        The files of every day hold what they held. Every day reads as before if and only if each live proof of every
        archived day fits on a line; an archived day with a longer one cannot be read any more. */
    method ArchiveProofs(keepDays: nat, now: int) returns (ok: bool, days: nat, count: nat)
      requires Valid()
      modifies this`disk, this`dirty
      ensures Valid() && ArchivedUpTo(codec, old(disk), disk, now - keepDays * DAY, ok)
      ensures ok ==> forall day <- old(disk).live ::
                day !in disk.live <==> old(disk).live[day] != map[] && day * DAY < now - keepDays * DAY
      ensures dirty <==> old(dirty) || (ok && count > 0)
    {
      hide CodecOk, DiskOk, Fresh, ArchiveFits, LiveFits, DayTable, SameTables, Archiving, ArchivedUpTo;
      var cutoff := now - keepDays * DAY;
      var order := SortedDays(disk.live.Keys);
      ghost var start := disk;
      ArchivingStarts(codec, disk, order, cutoff);
      ok, days, count := true, 0, 0;
      var k := 0;
      while k < |order|
        invariant 0 <= k <= |order| && Valid() && dirty == old(dirty) && ok
        invariant Archiving(codec, start, disk, order, k, cutoff)
      {
        var day := order[k];
        if !(day * DAY < cutoff) {
          ArchivingSkips(codec, start, disk, order, k, cutoff);
          k := k + 1;
          continue;
        }
        ghost var before := disk;
        var moved: nat;
        ok, moved := ArchiveDay(day);
        if !ok {
          ArchivingStops(codec, start, before, order, k, cutoff);
          return;
        }
        if moved == 0 {
          ArchivingIdles(codec, start, before, disk, order, k, cutoff);
        } else {
          ArchivingMoves(codec, start, before, disk, order, k, cutoff);
        }
        k := k + 1;
        if moved == 0 {
          continue;
        }
        days, count := days + 1, count + moved;
      }
      if count > 0 {
        dirty := true;
      }
      ArchivingEnds(codec, start, disk, order, cutoff);
      DueDaysMoved(codec, start, disk, cutoff);
    }

    predicate Ready(now: int)
      reads this
    {
      !dirty && loadedAt.Some? && now - loadedAt.value < ttl
    }

    /** ensureCache with no other call in between: afterwards the cache is a fresh reading of the disk. It fails, leaving
        everything as it is, exactly if the cache was not ready and some archive cannot be read. */
    method EnsureCache(now: int) returns (ok: bool)
      requires Valid()
      modifies this`cached, this`byDate, this`dirty, this`loadedAt
      ensures Valid() && (ok <==> old(Ready(now)) || StoreReadable(codec, disk))
      ensures ok ==> !dirty && loadedAt.Some? && Fresh(disk, cached)
      ensures old(Ready(now)) || !ok ==>
                cached == old(cached) && byDate == old(byDate) && dirty == old(dirty) && loadedAt == old(loadedAt)
    {
      if Ready(now) {
        return true;
      }
      var proofs := LoadAll(disk, codec);
      if proofs.None? {
        return false;
      }
      byDate := GroupByDay(proofs.value);
      cached := proofs.value;
      dirty := false;
      loadedAt := Some(now);
      return true;
    }

    /** GetProofsByDate: run sequentially, every read that succeeds equals a fresh read of that day's live and archived
        proofs; it fails exactly if the cache was not ready and some archive, of whatever day, cannot be read. */
    method GetProofsByDate(day: Day, now: int) returns (out: Option<seq<Proof>>)
      requires Valid()
      modifies this`cached, this`byDate, this`dirty, this`loadedAt
      ensures Valid() && (out.Some? <==> old(Ready(now)) || StoreReadable(codec, disk))
      ensures out.Some? ==> IsListing(out.value, DayTable(disk, day))
    {
      var ok := EnsureCache(now);
      if !ok {
        return None;
      }
      CachedDayIsListing(codec, disk, cached, day);
      out := Some(OnDate(byDate, day));
    }
  }

  /** liveProofDays: the days in order. */
  method SortedDays(days: set<Day>) returns (out: seq<Day>)
    ensures StrictlySorted(out, DayLess()) && forall day :: day in out <==> day in days
    ensures forall k :: 0 <= k < |out| ==> out[k] in days
  {
    out := [];
    var rest := days;
    while rest != {}
      invariant StrictlySorted(out, DayLess())
      invariant forall day :: day in days <==> day in out || day in rest
      invariant forall day :: day in out ==> day !in rest
      decreases rest
    {
      var day := Pick(rest);
      ghost var before := out;
      out := Insert(out, day, DayLess());
      forall d ensures d in out <==> d in before || d == day {
        assert d in out <==> d in Elements(out);
        assert d in before <==> d in Elements(before);
      }
      rest := rest - {day};
    }
  }

  function DayLess(): (Day, Day) -> bool {
    (a: Day, b: Day) => a < b
  }

  /** A live day before the cutoff that has proofs. */
  predicate Due(disk: Disk, day: Day, cutoff: int) {
    day in disk.live && disk.live[day] != map[] && day * DAY < cutoff
  }

  /** A due day with no unreadable archive among the due days up to it. */
  predicate Reached(c: Codec, disk: Disk, cutoff: int, day: Day) {
    && Due(disk, day, cutoff)
    && forall d <- disk.live :: d <= day && Due(disk, d, cutoff) ==> ArchiveFits(c, disk, d)
  }

  /** The day was archived between the two. */
  predicate Moved(disk: Disk, disk': Disk, day: Day) {
    day in disk.live && day !in disk'.live
  }

  lemma EarlierDays(order: seq<Day>, k: nat)
    requires StrictlySorted(order, DayLess()) && k < |order|
    ensures forall j :: 0 <= j < |order| ==> (order[j] < order[k] <==> j < k)
  {
    forall j | 0 <= j < |order| ensures order[j] < order[k] <==> j < k {
      if j < k {
        assert DayLess()(order[j], order[k]);
      } else if k < j {
        assert DayLess()(order[k], order[j]);
      }
    }
  }

  lemma SameTablesTwice(a: Disk, b: Disk, d: Disk)
    requires SameTables(a, b) && SameTables(b, d)
    ensures SameTables(a, d)
  {
    hide DayTable;
  }

  /** ArchiveProofs' loop has dealt with the first k days. */
  ghost predicate Archiving(c: Codec, start: Disk, disk: Disk, order: seq<Day>, k: nat, cutoff: int) {
    && k <= |order| && StrictlySorted(order, DayLess()) && (forall day :: day in order <==> day in start.live)
    && SameTables(start, disk)
    && (forall day <- disk.live :: day in start.live && disk.live[day] == start.live[day])
    && (forall j :: k <= j < |order| ==> order[j] in disk.live)
    && (forall j :: 0 <= j < k ==> (order[j] !in disk.live <==> Due(start, order[j], cutoff)))
    && (forall j :: 0 <= j < k && Due(start, order[j], cutoff) ==> ArchiveFits(c, start, order[j]))
    && (forall day :: ArchiveFits(c, disk, day) <==>
          ArchiveFits(c, start, day) && (Moved(start, disk, day) ==> LiveFits(c, start, day)))
  }

  /** What ArchiveProofs leaves behind. */
  ghost predicate ArchivedUpTo(c: Codec, start: Disk, disk: Disk, cutoff: int, ok: bool) {
    && SameTables(start, disk) && AllProofs(disk) == AllProofs(start)
    && (forall day <- disk.live :: day in start.live && disk.live[day] == start.live[day])
    && (ok <==> forall day <- start.live :: Due(start, day, cutoff) ==> ArchiveFits(c, start, day))
    && (forall day <- start.live :: day !in disk.live <==> Reached(c, start, cutoff, day))
    && (forall day :: ArchiveFits(c, disk, day) <==>
          ArchiveFits(c, start, day) && (Moved(start, disk, day) ==> LiveFits(c, start, day)))
    && (SameReadings(c, start, disk) <==> forall day :: Moved(start, disk, day) ==> LiveFits(c, start, day))
  }

  lemma ArchivingStarts(c: Codec, start: Disk, order: seq<Day>, cutoff: int)
    requires StrictlySorted(order, DayLess()) && forall day :: day in order <==> day in start.live
    ensures Archiving(c, start, start, order, 0, cutoff)
  {
    hide ArchiveFits, LiveFits, DayTable, StrictlySorted;
    forall j | 0 <= j < |order| ensures order[j] in start.live {
      var day := order[j];
      assert day in order;
    }
  }

  /** A day that is not before the cutoff stays. */
  lemma ArchivingSkips(c: Codec, start: Disk, disk: Disk, order: seq<Day>, k: nat, cutoff: int)
    requires Archiving(c, start, disk, order, k, cutoff) && k < |order| && order[k] * DAY >= cutoff
    ensures Archiving(c, start, disk, order, k + 1, cutoff)
  {
    hide ArchiveFits, LiveFits, SameTables, StrictlySorted;
  }

  lemma ArchivingIdles(c: Codec, start: Disk, disk: Disk, disk': Disk, order: seq<Day>, k: nat, cutoff: int)
    requires Archiving(c, start, disk, order, k, cutoff) && k < |order|
    requires LiveTable(disk, order[k]) == map[] && disk'.live == disk.live && SameTables(disk, disk')
    requires forall d :: ArchiveFits(c, disk', d) <==> ArchiveFits(c, disk, d)
    ensures Archiving(c, start, disk', order, k + 1, cutoff)
  {
    hide ArchiveFits, LiveFits, SameTables, StrictlySorted;
    SameTablesTwice(start, disk, disk');
  }

  lemma ArchivingMoves(c: Codec, start: Disk, disk: Disk, disk': Disk, order: seq<Day>, k: nat, cutoff: int)
    requires Archiving(c, start, disk, order, k, cutoff) && k < |order|
    requires order[k] * DAY < cutoff && LiveTable(disk, order[k]) != map[] && ArchiveFits(c, disk, order[k])
    requires disk'.live == disk.live - {order[k]} && SameTables(disk, disk')
    requires forall d :: ArchiveFits(c, disk', d) <==>
               ArchiveFits(c, disk, d) && (d == order[k] ==> LiveFits(c, disk, order[k]))
    ensures Archiving(c, start, disk', order, k + 1, cutoff)
  {
    hide ArchiveFits, SameTables, Fits;
    SameTablesTwice(start, disk, disk');
    assert order[k] in disk.live;
    assert LiveTable(start, order[k]) == LiveTable(disk, order[k]);
    assert LiveFits(c, start, order[k]) <==> LiveFits(c, disk, order[k]);
    hide LiveFits;
    forall j | 0 <= j < |order| && j != k ensures order[j] != order[k] {
      if j < k { assert DayLess()(order[j], order[k]); } else { assert DayLess()(order[k], order[j]); }
    }
    forall d ensures Moved(start, disk', d) <==> Moved(start, disk, d) || d == order[k] {}
  }

  lemma PlaceOf(order: seq<Day>, day: Day) returns (j: nat)
    requires day in order
    ensures j < |order| && order[j] == day
  {
    j :| j < |order| && order[j] == day;
  }

  lemma StoppedAt(c: Codec, start: Disk, disk: Disk, order: seq<Day>, k: nat, cutoff: int, day: Day)
    requires Archiving(c, start, disk, order, k, cutoff) && k < |order| && day in start.live
    requires Due(start, order[k], cutoff) && !ArchiveFits(c, start, order[k])
    ensures day !in disk.live <==> Reached(c, start, cutoff, day)
  {
    hide ArchiveFits, LiveFits, SameTables, Due, Moved;
    EarlierDays(order, k);
    var j := PlaceOf(order, day);
    if j < k {
      assert day < order[k];
      forall d | d in start.live && d <= day && Due(start, d, cutoff) ensures ArchiveFits(c, start, d) {
        var i := PlaceOf(order, d);
        assert i < k;
      }
    } else {
      assert day in disk.live && order[k] <= day;
    }
  }

  /** The loop stops at a due day whose archive cannot be read. */
  lemma ArchivingStops(c: Codec, start: Disk, disk: Disk, order: seq<Day>, k: nat, cutoff: int)
    requires Archiving(c, start, disk, order, k, cutoff) && k < |order|
    requires order[k] * DAY < cutoff && LiveTable(disk, order[k]) != map[] && !ArchiveFits(c, disk, order[k])
    ensures ArchivedUpTo(c, start, disk, cutoff, false)
  {
    hide ArchiveFits, LiveFits, SameTables, SameReadings, StrictlySorted, AllProofs, Reached;
    assert Due(start, order[k], cutoff) && !ArchiveFits(c, start, order[k]);
    SameTablesSameProofs(start, disk);
    MovedWereReadable(c, start, disk, order, k, cutoff);
    ReadingsFollow(c, start, disk);
    forall day | day in start.live {
      StoppedAt(c, start, disk, order, k, cutoff, day);
    }
  }

  lemma MovedWereReadable(c: Codec, start: Disk, disk: Disk, order: seq<Day>, k: nat, cutoff: int)
    requires Archiving(c, start, disk, order, k, cutoff)
    ensures forall day :: Moved(start, disk, day) ==> ArchiveFits(c, start, day)
  {
    hide ArchiveFits, LiveFits, SameTables;
    forall day | Moved(start, disk, day) ensures ArchiveFits(c, start, day) {
      var j := PlaceOf(order, day);
    }
  }

  lemma ArchivingEnds(c: Codec, start: Disk, disk: Disk, order: seq<Day>, cutoff: int)
    requires Archiving(c, start, disk, order, |order|, cutoff)
    ensures ArchivedUpTo(c, start, disk, cutoff, true)
  {
    hide ArchiveFits, LiveFits, SameTables, SameReadings;
    forall day | day in start.live
      ensures Due(start, day, cutoff) ==> ArchiveFits(c, start, day)
      ensures day !in disk.live <==> Due(start, day, cutoff)
    {
      var j := PlaceOf(order, day);
    }
    SameTablesSameProofs(start, disk);
    MovedWereReadable(c, start, disk, order, |order|, cutoff);
    ReadingsFollow(c, start, disk);
  }

  /** When every due day could be archived, the days that left are those with proofs that began before the cutoff. */
  lemma DueDaysMoved(c: Codec, start: Disk, disk: Disk, cutoff: int)
    requires ArchivedUpTo(c, start, disk, cutoff, true)
    ensures forall day <- start.live :: day !in disk.live <==> start.live[day] != map[] && day * DAY < cutoff
  {
    hide ArchiveFits, LiveFits, SameTables, SameReadings;
  }

  lemma OtherArchives(c: Codec, disk: Disk, day: Day, merged: seq<Proof>)
    ensures forall d :: d != day ==> (ArchiveFits(c, AfterArchive(disk, day, merged), d) <==> ArchiveFits(c, disk, d))
  {
    hide Fits;
    forall d { ArchivesAfter(disk, day, merged, d); }
  }

  /** With the same tables, the days read alike exactly if the same archives can be read. */
  lemma ReadingsFollow(c: Codec, disk: Disk, disk': Disk)
    requires SameTables(disk, disk')
    requires forall day :: ArchiveFits(c, disk', day) <==>
               ArchiveFits(c, disk, day) && (Moved(disk, disk', day) ==> LiveFits(c, disk, day))
    requires forall day :: Moved(disk, disk', day) ==> ArchiveFits(c, disk, day)
    ensures SameReadings(c, disk, disk') <==> forall day :: Moved(disk, disk', day) ==> LiveFits(c, disk, day)
  {
    hide DayTable, ArchiveFits, LiveFits, Moved;
    if SameReadings(c, disk, disk') {
      forall day | Moved(disk, disk', day) ensures LiveFits(c, disk, day) {
        assert DayReading(c, disk', day) == DayReading(c, disk, day);
      }
    }
  }

  /** loadAllProofsFromDisk: the days one after the other, then sorted together. */
  method LoadAll(disk: Disk, c: Codec) returns (out: Option<seq<Proof>>)
    requires DiskOk(c, disk)
    ensures out.Some? <==> StoreReadable(c, disk)
    ensures out.Some? ==> Fresh(disk, out.value)
  {
    hide ArchiveFits;
    var days := DaysOf(disk);
    ghost var done: set<Day> := {};
    var found: seq<Proof> := [];
    while days != {}
      invariant days + done == DaysOf(disk) && days !! done
      invariant Distinct(found)
      invariant forall p :: p in found <==> p in AllProofs(disk) && DayOf(p) in done
      invariant forall day <- done :: ArchiveFits(c, disk, day)
      decreases days
    {
      var day := Pick(days);
      var reading := LoadDay(disk, day, c);
      if reading.None? {
        NoArchiveFits(c, disk, day);
        return None;
      }
      ReadingIsDay(c, disk, day, reading.value);
      DistinctConcat(found, reading.value);
      found := found + reading.value;
      days, done := days - {day}, done + {day};
    }
    forall p | p in AllProofs(disk) ensures p in found {
      AllProofsAre(disk, p);
      var d, id :| id in DayTable(disk, d) && DayTable(disk, d)[id] == p;
      assert d in DaysOf(disk) && DayOf(p) == d;
    }
    assert Elements(found) == AllProofs(disk);
    AllProofsOrder(c, disk);
    var sorted := Sort(found, ProofLess);
    return Some(sorted);
  }

  lemma NoArchiveFits(c: Codec, disk: Disk, day: Day)
    ensures day !in disk.archives ==> ArchiveFits(c, disk, day)
  {}

  lemma DistinctConcat(a: seq<Proof>, b: seq<Proof>)
    requires Distinct(a) && Distinct(b) && forall p :: p in a ==> p !in b
    ensures Distinct(a + b)
  {
    forall i, j | 0 <= i < j < |a + b| ensures (a + b)[i] != (a + b)[j] {
      if i < |a| <= j {
        assert a[i] in a && b[j - |a|] in b;
      }
    }
  }

  lemma ReadingIsDay(c: Codec, disk: Disk, day: Day, reading: seq<Proof>)
    requires DiskOk(c, disk) && IsListing(reading, DayTable(disk, day))
    ensures Distinct(reading)
    ensures forall p :: p in reading <==> p in AllProofs(disk) && DayOf(p) == day
  {
    hide ProofLess, Admissible;
    DayTableKeyed(c, disk, day);
    TableOrder(DayTable(disk, day));
    SortedIsDistinct(reading, ProofLess);
    assert forall p :: p in reading <==> p in Elements(reading);
    ProofsOfDay(c, disk, day);
  }

  lemma OfDayStep(proofs: seq<Proof>, k: nat, day: Day)
    requires k < |proofs|
    ensures OfDay(proofs[..k + 1], day) == if DayOf(proofs[k]) == day then OfDay(proofs[..k], day) + [proofs[k]] else OfDay(proofs[..k], day)
  {
    assert proofs[..k + 1][..k] == proofs[..k];
  }

  lemma NothingOnDate(proofs: seq<Proof>)
    ensures forall day :: OfDay(proofs[..0], day) == []
  {}

  function OnDate(byDate: map<Day, seq<Proof>>, day: Day): seq<Proof> {
    if day in byDate then byDate[day] else []
  }

  /** The grouping loop of ensureCache. */
  method GroupByDay(proofs: seq<Proof>) returns (byDate: map<Day, seq<Proof>>)
    ensures forall day :: OnDate(byDate, day) == OfDay(proofs, day)
  {
    hide OfDay, DayOf;
    byDate := map[];
    NothingOnDate(proofs);
    for k := 0 to |proofs|
      invariant forall day :: OnDate(byDate, day) == OfDay(proofs[..k], day)
    {
      var today := DayOf(proofs[k]);
      ghost var before := byDate;
      byDate := byDate[today := OnDate(byDate, today) + [proofs[k]]];
      forall day ensures OnDate(byDate, day) == OfDay(proofs[..k + 1], day) {
        OfDayStep(proofs, k, day);
        assert OnDate(byDate, day) == if day == today then OnDate(before, day) + [proofs[k]] else OnDate(before, day);
      }
    }
    assert proofs[..|proofs|] == proofs;
  }
}
