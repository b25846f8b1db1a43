/** What the checks on online proofs and their witnesses refuse, whoever made them (internal/aip2p/credit_proof.go:202-412). */
module CreditRefusals {
  import opened CreditProof
  import opened Options
  import opened Sorting
  import opened Text
  import opened WitnessExchange

  // ---------- Signed content ----------

  /** The two proofs have the same signed content: everything but the witnesses and the signature, texts compared trimmed and
      lower-cased where the node does so, infohashes as the set of their normalized values. */
  ghost predicate SameContent(p: Proof, q: Proof) {
    && Trim(p.id) == Trim(q.id) && Trim(p.author) == Trim(q.author) && Norm(p.pubKey) == Norm(q.pubKey)
    && p.start == q.start && p.end == q.end && p.seedingCount == q.seedingCount && Trim(p.network) == Trim(q.network)
    && CleanSet(p.infohashes) == CleanSet(q.infohashes)
  }

  ghost predicate SameWitness(w: Witness, v: Witness) {
    && Trim(w.author) == Trim(v.author) && Norm(w.pubKey) == Norm(v.pubKey) && Trim(w.role) == Trim(v.role)
    && Norm(w.challenge) == Norm(v.challenge) && w.requestedAt == v.requestedAt && w.witnessedAt == v.witnessedAt
    && CleanSet(w.infohashes) == CleanSet(v.infohashes)
  }

  lemma CleanDecides(a: seq<string>, b: seq<string>)
    ensures Clean(a) == Clean(b) <==> CleanSet(a) == CleanSet(b)
  {
    CleanListing(a);
    CleanListing(b);
    if CleanSet(a) == CleanSet(b) {
      CleanForgetsOrder(a, b);
    }
  }

  lemma PayloadsDecide(p: Proof, q: Proof)
    ensures PayloadOf(p) == PayloadOf(q) <==> SameContent(p, q)
  {
    hide Trim, Norm, Clean, CleanSet;
    CleanDecides(p.infohashes, q.infohashes);
  }

  lemma WitnessPayloadsDecide(p: Proof, w: Witness, q: Proof, v: Witness)
    ensures WitnessPayloadOf(p, w) == WitnessPayloadOf(q, v) <==> SameContent(p, q) && SameWitness(w, v)
  {
    hide Trim, Norm, Clean, CleanSet, PayloadOf, SameContent;
    PayloadsDecide(p, q);
    CleanDecides(w.infohashes, v.infohashes);
  }

  /** There are keys that can sign: 64 hex digits and an author of the credit kind are all it takes. */
  lemma SigningIsPossible()
    ensures CanSign(Identity("agent://a/credit/online", seq(64, _ => '0')))
  {
    var key, author := seq(64, _ => '0'), "agent://a/credit/online";
    assert SpaceAt(key) == 0 && SpaceBefore(key) == 0;
    assert Trim(key) == key;
    assert Lower(key) == key;
    assert SpaceAt(author) == 0 && SpaceBefore(author) == 0;
    assert Trim(author) == author;
    assert author[|author| - |CREDIT_SUFFIX|..] == CREDIT_SUFFIX;
  }

  // ---------- One signature, one content ----------

  /** Two accepted node signatures that are equal sign the same content. */
  lemma NodeSignatureBinds(p: Proof, q: Proof)
    requires NodeSignatureOk(p) && NodeSignatureOk(q) && p.signature == q.signature
    ensures SameContent(p, q)
  {
    hide Trim, Norm, Clean, AlignToWindow, SameContent;
    PayloadsDecide(p, q);
  }

  /** A proof changed in anything its node signed, or without a signature, is refused, whoever changes it. */
  lemma TamperedProofIsRefused(p: Proof, q: Proof)
    requires NodeSignatureOk(p)
    requires (q.signature == p.signature && !SameContent(p, q)) || q.signature == Unsigned
    ensures !NodeSignatureOk(q)
  {
    hide SameContent, NodeSignatureOk;
    if q.signature == Unsigned {
      UnsignedProof(q);
    } else if NodeSignatureOk(q) {
      NodeSignatureBinds(p, q);
    }
  }

  lemma UnsignedProof(q: Proof)
    requires q.signature == Unsigned
    ensures !NodeSignatureOk(q)
  {
    hide Trim, Norm, Clean;
  }

  /** An accepted node signature was made with the key the proof names, for its content. */
  lemma NodeSignedIt(p: Proof)
    requires NodeSignatureOk(p)
    ensures p.signature.Sig? && p.signature.key == Norm(p.pubKey) && p.signature.payload == PayloadOf(p)
    ensures |Norm(p.pubKey)| == 64 && forall c <- Norm(p.pubKey) :: '0' <= c <= '9' || 'a' <= c <= 'f'
    ensures p.start % WINDOW == 0 && p.end == p.start + 10 * MINUTE
  {
    hide Trim, Norm, Clean, AlignToWindow;
    AlignIsFloor(p.start);
  }

  /** Two verifying witnesses with one signature agree on everything: the key, the author, the role, the challenge, both times,
      the infohashes, and the content of the proof they stand for. */
  lemma WitnessSignatureBinds(p: Proof, w: Witness, q: Proof, v: Witness)
    requires WitnessVerifies(p, w) && WitnessVerifies(q, v) && w.signature == v.signature
    ensures SameContent(p, q) && SameWitness(w, v)
  {
    hide WitnessOk, Norm, Trim, SameContent, SameWitness, WitnessPayloadOf;
    WitnessPayloadsDecide(p, w, q, v);
  }

  /** A witness changed in anything it signed, moved to a proof with other content, or without a signature is refused. */
  lemma TamperedWitnessIsRefused(p: Proof, w: Witness, q: Proof, v: Witness)
    requires WitnessVerifies(p, w)
    requires (v.signature == w.signature && !(SameContent(p, q) && SameWitness(w, v))) || v.signature == Unsigned
    ensures !WitnessVerifies(q, v)
  {
    hide SameContent, SameWitness, WitnessVerifies;
    if v.signature == Unsigned {
      UnsignedWitness(q, v);
    } else if WitnessVerifies(q, v) {
      WitnessSignatureBinds(p, w, q, v);
    }
  }

  lemma UnsignedWitness(q: Proof, v: Witness)
    requires v.signature == Unsigned
    ensures !WitnessVerifies(q, v)
  {
    hide WitnessOk, Norm, WitnessPayloadOf;
  }

  /** A signature made with another key than the one the witness names is refused. */
  lemma ForeignSignatureIsRefused(p: Proof, w: Witness, key: string, payload: Payload)
    requires w.signature == Sig(key, payload) && (key != Norm(w.pubKey) || payload != WitnessPayloadOf(p, w))
    ensures !WitnessVerifies(p, w)
  {
    hide WitnessOk, Norm, WitnessPayloadOf;
  }

  // ---------- What an accepted witness is ----------

  /** A verifying witness answered in time, for a challenge, within an hour of the window, and names only infohashes of the
      proof, at least one. */
  lemma WitnessStandsForProof(p: Proof, w: Witness)
    requires WitnessVerifies(p, w)
    ensures w.requestedAt.Some? && w.witnessedAt.Some?
    ensures p.start <= w.requestedAt.value <= p.start + WINDOW + HOUR
    ensures 0 <= w.witnessedAt.value - w.requestedAt.value <= 2 * MINUTE
    ensures Norm(w.challenge) != "" && |Norm(w.challenge)| % 2 == 0
    ensures forall c <- Norm(w.challenge) :: '0' <= c <= '9' || 'a' <= c <= 'f'
    ensures CleanSet(w.infohashes) <= CleanSet(p.infohashes) && CleanSet(w.infohashes) != {}
    ensures HasSuffix(Trim(w.author), "/credit/online") && Trim(w.role) != "" && |Norm(w.pubKey)| == 64
  {
    hide Trim, Norm, Clean, CleanSet, AlignToWindow, WitnessPayloadOf;
    CleanListing(w.infohashes);
    CleanListing(p.infohashes);
    forall v | v in CleanSet(w.infohashes) ensures v in CleanSet(p.infohashes) {
      assert v in Elements(Clean(w.infohashes));
      assert v in Clean(p.infohashes);
      assert v in Elements(Clean(p.infohashes));
    }
    assert Clean(w.infohashes)[0] in Elements(Clean(w.infohashes));
  }

  // ---------- Valid proofs ----------

  /** The witnesses with a role, as places in the list. */
  ghost function PlacesOf(ws: seq<Witness>, role: string): set<nat> {
    set k: nat | k < |ws| && Trim(ws[k].role) == role
  }

  lemma PlacesSnoc(ws: seq<Witness>, last: Witness, role: string)
    ensures PlacesOf(ws + [last], role) == PlacesOf(ws, role) + if Trim(last.role) == role then {|ws|} else {}
  {
    hide Trim;
  }

  lemma {:induction false} CountIsPlaces(ws: seq<Witness>, role: string)
    ensures RoleCount(ws, role) == |PlacesOf(ws, role)|
    decreases |ws|
  {
    hide Trim;
    if ws == [] {
      assert PlacesOf(ws, role) == {};
    } else {
      var init, last := ws[..|ws| - 1], ws[|ws| - 1];
      assert ws == init + [last];
      CountIsPlaces(init, role);
      PlacesSnoc(init, last, role);
      assert |init| !in PlacesOf(init, role);
      hide RoleCount, PlacesOf;
      RoleCountSnoc(init, last, role);
    }
  }

  /** What a valid proof is: signed by its node, with at least one witness and at most three DHT neighbors and two random
      checks, no two of one author, none by the node itself or with its key, each of them verifying. */
  lemma ValidProofIsWitnessed(p: Proof, idOf: (string, int) -> string)
    requires ProofValid(p, idOf)
    ensures p.signature.Sig? && p.signature.key == Norm(p.pubKey)
    ensures 1 <= |p.witnesses| <= 5
    ensures |PlacesOf(p.witnesses, "dht_neighbor")| <= 3 && |PlacesOf(p.witnesses, "random_check")| <= 2
    ensures forall k :: 0 <= k < |p.witnesses| ==>
              var w := p.witnesses[k];
              && Trim(w.role) in {"dht_neighbor", "random_check"}
              && w.signature.Sig? && w.signature.key == Norm(w.pubKey) != Norm(p.pubKey) && Trim(w.author) != Trim(p.author)
              && CleanSet(w.infohashes) <= CleanSet(p.infohashes) && CleanSet(w.infohashes) != {}
    ensures forall i, j :: 0 <= i < j < |p.witnesses| ==> Trim(p.witnesses[i].author) != Trim(p.witnesses[j].author)
    ensures p.seedingCount == |CleanSet(p.infohashes)| >= 1
    ensures Trim(p.id) == idOf(Norm(p.pubKey), p.start) && Trim(p.network) != "" && HasSuffix(Trim(p.author), "/credit/online")
  {
    hide Trim, Norm, Clean, CleanSet, AlignToWindow, WitnessOk, WitnessPayloadOf, PlacesOf, RoleCount, WitnessVerifies;
    var ws := p.witnesses;
    forall k | 0 <= k < |ws|
      ensures Trim(ws[k].role) in {"dht_neighbor", "random_check"}
      ensures ws[k].signature.Sig? && ws[k].signature.key == Norm(ws[k].pubKey)
      ensures CleanSet(ws[k].infohashes) <= CleanSet(p.infohashes) && CleanSet(ws[k].infohashes) != {}
    {
      assert ws[k] in p.witnesses;
      WitnessStandsForProof(p, ws[k]);
      VerifyingIsSigned(p, ws[k]);
    }
    NodeSignedIt(p);
    QuotaHolds(ws, "dht_neighbor");
    QuotaHolds(ws, "random_check");
    AtMostFive(ws);
    SizeOfClean(p.infohashes);
  }

  lemma VerifyingIsSigned(p: Proof, w: Witness)
    requires WitnessVerifies(p, w)
    ensures w.signature == Sig(Norm(w.pubKey), WitnessPayloadOf(p, w))
  {
    hide WitnessOk, Norm, WitnessPayloadOf;
  }

  lemma QuotaHolds(ws: seq<Witness>, role: string)
    requires RolesWithinQuota(ws)
    ensures |PlacesOf(ws, role)| <= RoleQuota(role)
  {
    hide Trim, RoleQuota;
    CountIsPlaces(ws, role);
    if PlacesOf(ws, role) != {} {
      var k :| k in PlacesOf(ws, role);
      assert ws[k] in ws;
    }
  }

  lemma AtMostFive(ws: seq<Witness>)
    requires |PlacesOf(ws, "dht_neighbor")| <= 3 && |PlacesOf(ws, "random_check")| <= 2
    requires forall k :: 0 <= k < |ws| ==> Trim(ws[k].role) in {"dht_neighbor", "random_check"}
    ensures |ws| <= 5
  {
    hide Trim;
    var a, b, all := PlacesOf(ws, "dht_neighbor"), PlacesOf(ws, "random_check"), Below(|ws|);
    assert all <= a + b;
    SubsetSize(all, a + b);
    assert |a + b| == |a| + |b| - |a * b|;
  }

  function Below(n: nat): (s: set<nat>)
    ensures |s| == n && forall k: nat :: k in s <==> k < n
  {
    if n == 0 then {} else Below(n - 1) + {n - 1}
  }

  lemma SizeOfClean(values: seq<string>)
    ensures |Clean(values)| == |CleanSet(values)|
  {
    hide Clean, CleanSet;
    CleanListing(values);
    StringOrder(Elements(Clean(values)));
    SortedIsDistinct(Clean(values), StringLess);
    DistinctSize(Clean(values));
  }

  /** A valid proof stays valid under no change of what its node or one of its witnesses signed. */
  lemma ValidProofIsFixed(p: Proof, q: Proof, idOf: (string, int) -> string, k: nat)
    requires ProofValid(p, idOf) && k < |p.witnesses| == |q.witnesses|
    requires q.signature == p.signature && q.witnesses[k].signature == p.witnesses[k].signature
    requires !SameContent(p, q) || !SameWitness(p.witnesses[k], q.witnesses[k])
    ensures !ProofValid(q, idOf)
  {
    hide SameContent, SameWitness, NodeSignatureOk, WitnessVerifies, WitnessesEligible, DistinctWitnesses, Trim, Norm, Clean,
         IsCreditAuthor, WindowOk;
    assert p.witnesses[k] in p.witnesses && q.witnesses[k] in q.witnesses;
    if !SameContent(p, q) {
      TamperedProofIsRefused(p, q);
    } else {
      TamperedWitnessIsRefused(p, p.witnesses[k], q, q.witnesses[k]);
    }
  }

  // ---------- What a responder refuses ----------

  /** A request is answered only within two minutes of the responder's clock either way, from the window's start to an hour after
      its end, with a challenge in hex, for a proof its node signed, and by a host that seeds something if it says what it seeds. */
  lemma AcceptedRequestIsTimely(req: Request, seeding: Option<seq<string>>, now: int)
    requires Acceptable(req, seeding, now)
    ensures req.requestedAt.Some? && -2 * MINUTE <= req.requestedAt.value - now <= 2 * MINUTE
    ensures req.proof.start <= req.requestedAt.value <= req.proof.start + WINDOW + HOUR
    ensures Norm(req.challenge) != "" && |Norm(req.challenge)| % 2 == 0
    ensures forall c <- Norm(req.challenge) :: '0' <= c <= '9' || 'a' <= c <= 'f'
    ensures req.proof.signature == Sig(Norm(req.proof.pubKey), PayloadOf(req.proof))
    ensures seeding.Some? ==> CleanSet(seeding.value) != {}
  {
    NodeSignedIt(req.proof);
    if seeding.Some? {
      CleanListing(seeding.value);
      NoElements(Clean(seeding.value));
    }
    hide Trim, Norm, Clean, CleanSet, AlignToWindow, PayloadOf;
  }

  /** A request whose proof was changed in anything its node signed, or is not signed, gets no witness, whatever its other parts. */
  lemma TamperedRequestIsRefused(req: Request, other: Request, seeding: Option<seq<string>>, now: int,
                                 seeding': Option<seq<string>>, now': int)
    requires Acceptable(req, seeding, now)
    requires (other.proof.signature == req.proof.signature && !SameContent(req.proof, other.proof))
             || other.proof.signature == Unsigned
    ensures !Acceptable(other, seeding', now')
  {
    hide SameContent, NodeSignatureOk, Norm, Clean;
    TamperedProofIsRefused(req.proof, other.proof);
  }

  /** The other way round: nothing else is asked of a request. */
  lemma TimelyRequestIsAccepted(req: Request, seeding: Option<seq<string>>, now: int)
    requires NodeSignatureOk(req.proof) && req.requestedAt.Some? && -2 * MINUTE <= req.requestedAt.value - now <= 2 * MINUTE
    requires req.proof.start <= req.requestedAt.value <= req.proof.start + WINDOW + HOUR
    requires Norm(req.challenge) != "" && |Norm(req.challenge)| % 2 == 0
    requires forall k :: 0 <= k < |Norm(req.challenge)| ==>
               var c := Norm(req.challenge)[k]; '0' <= c <= '9' || 'a' <= c <= 'f'
    requires seeding.Some? ==> CleanSet(seeding.value) != {}
    ensures Acceptable(req, seeding, now)
  {
    NodeSignedIt(req.proof);
    if seeding.Some? {
      CleanListing(seeding.value);
      NoElements(Clean(seeding.value));
    }
    hide Trim, Norm, Clean, CleanSet, NodeSignatureOk;
  }

  /** A witness has the role it was asked for; without one it is a DHT neighbor. */
  lemma AnswerTakesTheRole(req: Request, id: Identity, answered: Option<seq<string>>, clock: int, w: Witness)
    requires Answers(req, id, answered, clock, w)
    ensures w.role == if Trim(req.role) == "" then "dht_neighbor" else Trim(req.role)
  {
    hide Trim, Norm, Clean, CleanSet, WitnessPayloadOf, WitnessedAt;
  }
}
