/** Asking a peer to witness an online proof, and answering (internal/aip2p/credit_witness.go). */
module WitnessExchange {
  import opened CreditProof
  import opened Options
  import opened Sorting
  import opened Text

  datatype Request = Request(proof: Proof, role: string, challenge: string, requestedAt: Option<int>)

  datatype Refusal =
    | NoChallenge | ChallengeNotHex | BadTimestamp | OutsideAcceptance | BadNodeSignature
    | BeforeWindow | TooLongAfterWindow | NotSeeding | NoOverlap

  datatype Reply = Refused(reason: Refusal) | Witnessed(signed: Witness)

  function DefaultRole(role: string): string {
    if Trim(role) == "" then DHT_NEIGHBOR else Trim(role)
  }

  /** requestCreditWitness: the requester's clock, moved up to the window start, in whole seconds. */
  function HonestRequest(p: Proof, role: string, challenge: string, clock: int): Request {
    var at := if WindowOk(p) && clock < p.start then p.start else clock;
    Request(p, DefaultRole(role), challenge, Some(WholeSeconds(at)))
  }

  /** validateCreditWitnessRequest at clock `now`; `seeding` is None when the host has no seeding list. */
  method ValidateRequest(req: Request, seeding: Option<seq<string>>, now: int) returns (refusal: Option<Refusal>)
    ensures refusal.None? <==> Acceptable(req, seeding, now)
  {
    hide Norm, Clean;
    var challenge := Norm(req.challenge);
    if challenge == "" {
      return Some(NoChallenge);
    }
    if !IsHex(challenge) {
      return Some(ChallengeNotHex);
    }
    if req.requestedAt.None? {
      return Some(BadTimestamp);
    }
    var requestedAt := req.requestedAt.value;
    if requestedAt < now - REQUEST_TTL || requestedAt > now + TIME_TOLERANCE {
      return Some(OutsideAcceptance);
    }
    if !NodeSignatureOk(req.proof) {
      return Some(BadNodeSignature);
    }
    if requestedAt < req.proof.start {
      return Some(BeforeWindow);
    }
    if requestedAt > req.proof.end + PROOF_MAX_AGE {
      return Some(TooLongAfterWindow);
    }
    if seeding.Some? {
      var clean := CleanInfohashes(seeding.value);
      if |clean| < 1 {
        return Some(NotSeeding);
      }
    }
    return None;
  }

  predicate Acceptable(req: Request, seeding: Option<seq<string>>, now: int) {
    && Norm(req.challenge) != "" && IsHex(Norm(req.challenge))
    && req.requestedAt.Some?
    && now - REQUEST_TTL <= req.requestedAt.value <= now + TIME_TOLERANCE
    && NodeSignatureOk(req.proof)
    && req.proof.start <= req.requestedAt.value <= req.proof.end + PROOF_MAX_AGE
    && (seeding.Some? ==> |Clean(seeding.value)| >= 1)
  }

  /** A request of an honest requester for its own signed proof is accepted exactly while the responder's clock is within
      two minutes of it and the window is at most an hour over, by a responder that seeds something. */
  lemma HonestRequestAccepted(owner: Identity, start: int, startText: string, infohashes: seq<string>, network: string,
                              idOf: (string, int) -> string, role: string, challenge: string, requestClock: int,
                              seeding: Option<seq<string>>, checkClock: int)
    requires CanSign(owner) && start == AlignToWindow(start) && Norm(challenge) != "" && IsHex(Norm(challenge))
    ensures var p := NewSignedProof(owner, start, startText, infohashes, network, idOf);
            var req := HonestRequest(p, role, challenge, requestClock);
            Acceptable(req, seeding, checkClock) <==>
              && req.requestedAt.value - TIME_TOLERANCE <= checkClock <= req.requestedAt.value + REQUEST_TTL
              && req.requestedAt.value <= start + WINDOW + PROOF_MAX_AGE
              && (seeding.Some? ==> |Clean(seeding.value)| >= 1)
  {
    hide Trim, Norm, Clean, AlignToWindow, IsHex, NodeSignatureOk, IsCreditAuthor, WholeSeconds, CanSign, PayloadOf;
    NewProofIsSigned(owner, start, startText, infohashes, network, idOf);
    WindowStartIsWhole(start);
    FloorKeepsMultiple(start, if requestClock < start then start else requestClock);
  }

  lemma WindowStartIsWhole(start: int)
    requires start == AlignToWindow(start)
    ensures start % SECOND == 0
  {
    hide AlignToWindow;
    AlignIsFloor(start);
  }

  /** The time the responder writes down: its clock, but not before the request, in whole seconds. */
  function WitnessedAt(requestedAt: int, clock: int): int {
    WholeSeconds(if clock < requestedAt then requestedAt else clock)
  }

  /** The infohashes both sides seed. */
  ghost predicate Overlap(p: Proof, seeding: Option<seq<string>>) {
    CleanSet(p.infohashes) * CleanSet(if seeding.Some? then seeding.value else []) != {}
  }

  /** The witness handler. It reads its clock and its seeding list once to check and once more to answer. */
  method Respond(req: Request, id: Identity, checked: Option<seq<string>>, checkClock: int,
                 answered: Option<seq<string>>, answerClock: int) returns (reply: Reply)
    requires CanSign(id)
    ensures reply.Witnessed? <==> Acceptable(req, checked, checkClock) && Overlap(req.proof, answered)
    ensures reply.Witnessed? ==> Answers(req, id, answered, answerClock, reply.signed)
  {
    hide Norm, Clean, Trim;
    var refusal := ValidateRequest(req, checked, checkClock);
    if refusal.Some? {
      return Refused(refusal.value);
    }
    var infohashes := IntersectInfohashes(req.proof.infohashes, if answered.Some? then answered.value else []);
    ElementsOfShared(infohashes);
    if |infohashes| < 1 {
      return Refused(NoOverlap);
    }
    var w := Witness(Trim(id.author), Norm(id.pubKey), Unsigned, DefaultRole(req.role), Norm(req.challenge), req.requestedAt,
                     Some(WitnessedAt(req.requestedAt.value, answerClock)), infohashes);
    return Witnessed(w.(signature := Sig(Norm(id.pubKey), WitnessPayloadOf(req.proof, w))));
  }

  lemma ElementsOfShared(infohashes: seq<string>)
    ensures |infohashes| >= 1 <==> Elements(infohashes) != {}
  {
    NoElements(infohashes);
  }

  /** What the handler signs. */
  ghost predicate Answers(req: Request, id: Identity, answered: Option<seq<string>>, answerClock: int, w: Witness) {
    && req.requestedAt.Some?
    && w.author == Trim(id.author) && w.pubKey == Norm(id.pubKey) && w.role == DefaultRole(req.role)
    && w.challenge == Norm(req.challenge) && w.requestedAt == req.requestedAt
    && w.witnessedAt == Some(WitnessedAt(req.requestedAt.value, answerClock))
    && Elements(w.infohashes) == CleanSet(req.proof.infohashes) * CleanSet(if answered.Some? then answered.value else [])
    && Clean(w.infohashes) == w.infohashes
    && w.signature == Sig(Norm(id.pubKey), WitnessPayloadOf(req.proof, w.(signature := Unsigned)))
  }

  lemma RoleIsNamed(role: string)
    ensures Trim(DefaultRole(role)) == DefaultRole(role) != ""
  {
    hide Trim;
    TrimIsTrimmed(role);
    NeighborIsTrimmed();
  }

  lemma NeighborIsTrimmed()
    ensures Trim(DHT_NEIGHBOR) == DHT_NEIGHBOR
  {
    assert Trimmed(DHT_NEIGHBOR);
  }

  /** The signed content passes every check of the requester except, perhaps, the one on the time written down. */
  lemma AnswerContentIsValid(req: Request, id: Identity, answered: Option<seq<string>>, answerClock: int, w: Witness,
                             checked: Option<seq<string>>, checkClock: int)
    requires CanSign(id) && Acceptable(req, checked, checkClock) && Overlap(req.proof, answered)
    requires Answers(req, id, answered, answerClock, w)
    ensures var t := WitnessedAt(req.requestedAt.value, answerClock);
            WitnessVerifies(req.proof, w) <==> req.requestedAt.value <= t <= req.requestedAt.value + REQUEST_TTL
  {
    hide Trim, Norm, Clean, IsHex, AlignToWindow, CleanSet, WholeSeconds, DefaultRole, PayloadOf, HasSuffix;
    NormIdempotent(id.pubKey);
    NormIdempotent(req.challenge);
    TrimIsTrimmed(id.author);
    RoleIsNamed(req.role);
    NormBlank(id.pubKey);
    KeyIsNotBlank(id.pubKey);
    CreditAuthorIsNotBlank(id.author);
    ElementsOfShared(w.infohashes);
    CleanListing(req.proof.infohashes);
    forall v | v in w.infohashes ensures v in Clean(req.proof.infohashes) {
      assert v in Elements(w.infohashes) && v in Elements(Clean(req.proof.infohashes));
    }
  }

  lemma KeyIsNotBlank(key: string)
    requires IsKey(key)
    ensures Norm(key) != ""
  {
    hide Norm;
  }

  lemma CreditAuthorIsNotBlank(author: string)
    requires IsCreditAuthor(author)
    ensures Trim(author) != ""
  {
    hide Trim;
  }

  /** An honest exchange, for every clock and every seeding list: the witness passes the requester's verification
      if and only if the responder's second clock reading, in whole seconds, is at most two minutes after the request. */
  lemma HonestExchange(p: Proof, role: string, challenge: string, requestClock: int, id: Identity,
                       checked: Option<seq<string>>, checkClock: int,
                       answered: Option<seq<string>>, answerClock: int, w: Witness)
    requires CanSign(id)
    requires var req := HonestRequest(p, role, challenge, requestClock);
             Acceptable(req, checked, checkClock) && Overlap(p, answered) && Answers(req, id, answered, answerClock, w)
    ensures var requestedAt := HonestRequest(p, role, challenge, requestClock).requestedAt.value;
            WitnessVerifies(p, w) <==> WholeSeconds(answerClock) <= requestedAt + REQUEST_TTL
  {
    var req := HonestRequest(p, role, challenge, requestClock);
    var at := if WindowOk(p) && requestClock < p.start then p.start else requestClock;
    AnswerContentIsValid(req, id, answered, answerClock, w, checked, checkClock);
    SecondsKeepOrder(at, answerClock);
  }

  lemma SecondsKeepOrder(at: int, clock: int)
    ensures var requestedAt := WholeSeconds(at);
            && requestedAt <= WitnessedAt(requestedAt, clock)
            && (WitnessedAt(requestedAt, clock) <= requestedAt + REQUEST_TTL <==> WholeSeconds(clock) <= requestedAt + REQUEST_TTL)
  {
    var requestedAt := WholeSeconds(at);
    assert requestedAt % SECOND == 0;
    assert WholeSeconds(requestedAt) == requestedAt;
    if clock >= requestedAt {
      FloorKeepsMultiple(requestedAt, clock);
    }
  }

  lemma FloorKeepsMultiple(m: int, t: int)
    requires m % SECOND == 0 && m <= t
    ensures m <= WholeSeconds(t)
  {
    var k, q := m / SECOND, t / SECOND;
    assert m == k * SECOND && WholeSeconds(t) == q * SECOND;
    assert k <= q;
  }

  /** When both readings of the responder's clock agree, every accepted honest request gets a verifying witness. */
  lemma OneClockReadingSuffices(p: Proof, role: string, challenge: string, requestClock: int, id: Identity,
                                checked: Option<seq<string>>, answered: Option<seq<string>>, clock: int, w: Witness)
    requires CanSign(id)
    requires var req := HonestRequest(p, role, challenge, requestClock);
             Acceptable(req, checked, clock) && Overlap(p, answered) && Answers(req, id, answered, clock, w)
    ensures WitnessVerifies(p, w)
  {
    HonestExchange(p, role, challenge, requestClock, id, checked, clock, answered, clock, w);
  }

  /** The two readings matter: a request accepted in its last instant and answered a second later yields a witness
      that its requester rejects. */
  lemma SlowAnswerIsRejected(p: Proof, role: string, challenge: string, requestClock: int, id: Identity,
                             seeding: Option<seq<string>>, w: Witness)
    requires CanSign(id)
    requires var req := HonestRequest(p, role, challenge, requestClock);
             var checkClock := req.requestedAt.value + REQUEST_TTL;
             Acceptable(req, seeding, checkClock) && Overlap(p, seeding) && Answers(req, id, seeding, checkClock + SECOND, w)
    ensures !WitnessVerifies(p, w)
  {
    hide WitnessVerifies, Acceptable, Overlap, Answers;
    var at := HonestRequest(p, role, challenge, requestClock).requestedAt.value;
    HonestExchange(p, role, challenge, requestClock, id, seeding, at + REQUEST_TTL, seeding, at + REQUEST_TTL + SECOND, w);
    LateSecond(if WindowOk(p) && requestClock < p.start then p.start else requestClock);
  }

  lemma LateSecond(t: int)
    ensures WholeSeconds(WholeSeconds(t) + REQUEST_TTL + SECOND) == WholeSeconds(t) + REQUEST_TTL + SECOND
  {
    var at := WholeSeconds(t);
    assert at == (t / SECOND) * SECOND;
    assert at + REQUEST_TTL + SECOND == (t / SECOND + 121) * SECOND;
  }

  /** End to end: a freshly signed proof with one witness from an honest exchange validates and can be stored. */
  lemma WitnessedProofValidates(owner: Identity, start: int, startText: string, infohashes: seq<string>, network: string,
                                idOf: (string, int) -> string, role: string, w: Witness)
    requires CanSign(owner) && start == AlignToWindow(start) && Clean(infohashes) != [] && Trim(network) != ""
    requires forall key, s :: Trim(idOf(key, s)) == idOf(key, s)
    requires var p := NewSignedProof(owner, start, startText, infohashes, network, idOf);
             WitnessVerifies(p, w) && WitnessEligible(p, w)
    ensures ProofValid(NewSignedProof(owner, start, startText, infohashes, network, idOf).(witnesses := [w]), idOf)
  {
    hide Trim, Norm, Clean, AlignToWindow, IsHex, IsCreditAuthor, RoleQuota;
    var p := NewSignedProof(owner, start, startText, infohashes, network, idOf);
    NewProofIsSigned(owner, start, startText, infohashes, network, idOf);
    WitnessesAreIndependent(p, [w], w);
    NormIdempotent(owner.pubKey);
    assert Trim(p.id) == idOf(Norm(p.pubKey), p.start);
    assert WitnessesEligible(p.(witnesses := [w])) by {
      assert RoleCount([w], Trim(w.role)) <= 1;
    }
  }

  // ---------- Proofs of any size ----------

  lemma LongHash(n: nat)
    ensures var hash := seq(n + 1, _ => 'a'); Norm(hash) == hash != "" && Clean([hash]) == [hash] && CleanSet([hash]) == {hash}
  {
    var hash := seq(n + 1, _ => 'a');
    assert hash[0] == 'a' && hash[|hash| - 1] == 'a';
    assert SpaceAt(hash) == 0 && SpaceBefore(hash) == 0;
    assert Trim(hash) == hash;
    assert Lower(hash) == hash;
    var rest: seq<string> := [hash];
    assert rest[1..] == [];
    assert CleanSet([hash]) == {hash} by { hide Norm; assert hash in [hash]; }
  }

  lemma ZeroChallenge()
    ensures Norm("00") == "00" && IsHex("00") && Trim("") == ""
  {
    assert SpaceAt("00") == 0 && SpaceBefore("00") == 0;
    assert Trim("00") == "00";
    assert Lower("00") == "00";
  }

  /** The witness an honest responder signs, for one infohash it seeds itself. */
  lemma WitnessOf(p: Proof, id: Identity, hash: string) returns (w: Witness)
    requires CanSign(id) && p.infohashes == [hash] && Clean([hash]) == [hash] && CleanSet([hash]) == {hash}
    ensures Answers(HonestRequest(p, "", "00", p.start), id, Some([hash]), p.start, w)
  {
    hide Trim, Norm, WholeSeconds;
    ZeroChallenge();
    RoleIsNamed("");
    var req := HonestRequest(p, "", "00", p.start);
    var unsigned := Witness(Trim(id.author), Norm(id.pubKey), Unsigned, DefaultRole(""), Norm("00"), req.requestedAt,
                            Some(WitnessedAt(req.requestedAt.value, p.start)), [hash]);
    w := unsigned.(signature := Sig(Norm(id.pubKey), WitnessPayloadOf(p, unsigned)));
    assert w.(signature := Unsigned) == unsigned;
    assert Elements([hash]) == {hash};
  }

  lemma WitnessIsEligible(p: Proof, owner: Identity, id: Identity, w: Witness)
    requires Trim(owner.author) != Trim(id.author) && Norm(owner.pubKey) != Norm(id.pubKey)
    requires Trim(p.author) == Trim(owner.author) && Norm(p.pubKey) == Norm(owner.pubKey)
    requires w.author == Trim(id.author) && w.pubKey == Norm(id.pubKey) && w.role == DefaultRole("")
    ensures WitnessEligible(p, w)
  {
    ZeroChallenge();
    RoleIsNamed("");
    TrimIsTrimmed(id.author);
    NormIdempotent(id.pubKey);
    hide Trim, Norm;
  }

  lemma AnswerNames(req: Request, id: Identity, answered: Option<seq<string>>, clock: int, w: Witness)
    requires Answers(req, id, answered, clock, w)
    ensures w.author == Trim(id.author) && w.pubKey == Norm(id.pubKey) && w.role == DefaultRole(req.role)
  {
    hide Trim, Norm;
  }

  lemma WholeStays(t: int)
    requires t % SECOND == 0
    ensures WholeSeconds(t) == t
  {}

  /** Validation bounds the size of a proof by nothing: any two identities can make a valid proof with an infohash as long
      as one likes. */
  lemma ProofsOfAnySize(owner: Identity, other: Identity, start: int, startText: string, network: string,
                        idOf: (string, int) -> string, n: nat) returns (p: Proof)
    requires CanSign(owner) && CanSign(other)
    requires Trim(owner.author) != Trim(other.author) && Norm(owner.pubKey) != Norm(other.pubKey)
    requires start == AlignToWindow(start) && Trim(network) != ""
    requires forall key, s :: Trim(idOf(key, s)) == idOf(key, s)
    ensures ProofValid(p, idOf) && p.start == start && p.startText == startText && p.id == idOf(Norm(owner.pubKey), start)
    ensures p.infohashes == [seq(n + 1, _ => 'a')]
  {
    hide Trim, Norm, Clean, AlignToWindow, IsHex, NodeSignatureOk, IsCreditAuthor, WholeSeconds, CanSign, PayloadOf, ProofValid,
         WitnessVerifies, WitnessEligible, Acceptable, Answers;
    var hash := seq(n + 1, _ => 'a');
    LongHash(n);
    ZeroChallenge();
    var bare := NewSignedProof(owner, start, startText, [hash], network, idOf);
    NewProofIsSigned(owner, start, startText, [hash], network, idOf);
    HonestRequestAccepted(owner, start, startText, [hash], network, idOf, "", "00", start, Some([hash]), start);
    WindowStartIsWhole(start);
    WholeStays(start);
    var w := WitnessOf(bare, other, hash);
    assert Overlap(bare, Some([hash])) by { assert hash in CleanSet([hash]) * CleanSet([hash]); }
    OneClockReadingSuffices(bare, "", "00", start, other, Some([hash]), Some([hash]), start, w);
    AnswerNames(HonestRequest(bare, "", "00", start), other, Some([hash]), start, w);
    RoleIsNamed("");
    WitnessIsEligible(bare, owner, other, w);
    WitnessedProofValidates(owner, start, startText, [hash], network, idOf, "", w);
    p := bare.(witnesses := [w]);
  }
}
