/** What archived lines have no room for, although validation accepts it (internal/aip2p/credit_store.go,
    internal/aip2p/credit_proof.go). */
module CreditArchiveLimit {
  import opened CreditProof
  import opened CreditStore
  import opened Text
  import WitnessExchange

  /** The line of a proof spells out its infohashes. */
  ghost predicate SpellsInfohashes(c: Codec) {
    forall p: Proof :: p.infohashes != [] ==> c.size(p) >= |p.infohashes[0]|
  }

  /** Any two identities can make a valid proof for any window. Saved, it leaves a readable store readable; once
      its day is archived no load of the store succeeds. */
  lemma ValidProofBlocksStore(c: Codec, disk: Disk, owner: Identity, other: Identity, start: int, startText: string,
                              network: string) returns (p: Proof)
    requires DiskOk(c, disk) && StoreReadable(c, disk) && SpellsInfohashes(c)
    requires CanSign(owner) && CanSign(other)
    requires Trim(owner.author) != Trim(other.author) && Norm(owner.pubKey) != Norm(other.pubKey)
    requires start == AlignToWindow(start) && c.startOf(startText) == start && Trim(network) != ""
    requires forall key, s :: Trim(c.idOf(key, s)) == c.idOf(key, s)
    ensures ProofValid(p, c.idOf) && p.start == start && p.id == c.idOf(Norm(owner.pubKey), start)
    ensures StoreReadable(c, AfterSave(disk, p))
    ensures forall merged :: IsListing(merged, DayTable(AfterSave(disk, p), DayOf(p))) ==>
              !StoreReadable(c, AfterArchive(AfterSave(disk, p), DayOf(p), merged))
  {
    hide Trim, Norm, AlignToWindow, DiskOk, IsListing, DayTable, StoreReadable, AfterArchive, AfterSave, DayOf, CanSign,
         IsCreditAuthor, NodeSignatureOk;
    p := WitnessExchange.ProofsOfAnySize(owner, other, start, startText, network, c.idOf, MAX_SCAN_TOKEN);
    assert !Fits(c, p);
    SavedIsReadable(c, disk, p);
    forall merged | IsListing(merged, DayTable(AfterSave(disk, p), DayOf(p)))
      ensures !StoreReadable(c, AfterArchive(AfterSave(disk, p), DayOf(p), merged))
    {
      OverlongProofBlocksStore(c, disk, p, merged);
    }
  }
}
