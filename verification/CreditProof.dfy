/** Online proofs: their ten-minute windows, signatures and validation (internal/aip2p/credit_proof.go).
    A signature is a symbolic term, so it verifies for exactly the key and payload it was made with. */
module CreditProof {
  import opened Options
  import opened Sorting
  import opened Text

  /** Instants are nanoseconds since the Unix epoch. */
  const SECOND := 1_000_000_000
  const MINUTE := 60 * SECOND
  const HOUR := 60 * MINUTE
  const WINDOW := 10 * MINUTE
  const PROOF_MAX_AGE := HOUR
  const TIME_TOLERANCE := 2 * MINUTE
  const REQUEST_TTL := 2 * MINUTE

  // ---------- Windows ----------

  /** AlignToWindow, field by field: the hour of t, its minute rounded down to ten, no seconds. */
  function AlignToWindow(t: int): int {
    var hour := t - t % HOUR;
    var minute := (t % HOUR) / MINUTE;
    hour + (minute - minute % 10) * MINUTE
  }

  /** It is the latest multiple of ten minutes not after t. */
  lemma AlignIsFloor(t: int)
    ensures AlignToWindow(t) == t - t % WINDOW
    ensures AlignToWindow(t) <= t < AlignToWindow(t) + WINDOW && AlignToWindow(AlignToWindow(t)) == AlignToWindow(t)
  {
    hide AlignToWindow;
    AlignSteps(t);
    AlignSteps(t - t % WINDOW);
    RemainderIs(t - t % WINDOW, t / WINDOW, 0);
  }

  lemma AlignSteps(t: int)
    ensures AlignToWindow(t) == t - t % WINDOW
  {
    var hours, inHour := t / HOUR, t % HOUR;
    var minute, rest := inHour / MINUTE, inHour % MINUTE;
    var tens, unit := minute / 10, minute % 10;
    assert t == (hours * 6 + tens) * WINDOW + (unit * MINUTE + rest);
    assert 0 <= unit * MINUTE + rest < WINDOW;
    RemainderIs(t, hours * 6 + tens, unit * MINUTE + rest);
  }

  lemma RemainderIs(t: int, q: int, r: int)
    requires t == q * WINDOW + r && 0 <= r < WINDOW
    ensures t % WINDOW == r
  {}

  /** Formatting as RFC 3339 drops what is finer than a second. */
  function WholeSeconds(t: int): int {
    t - t % SECOND
  }

  // ---------- Infohash lists ----------

  function InsertNew(sorted: seq<string>, x: string): seq<string> {
    if sorted == [] then [x]
    else if x == sorted[0] then sorted
    else if StringLess(x, sorted[0]) then [x] + sorted
    else [sorted[0]] + InsertNew(sorted[1..], x)
  }

  /** cleanInfohashes as a value: normalized, without blanks or repeats, sorted. */
  function Clean(values: seq<string>): seq<string> {
    if values == [] then []
    else if Norm(values[0]) == "" then Clean(values[1..])
    else InsertNew(Clean(values[1..]), Norm(values[0]))
  }

  ghost function CleanSet(values: seq<string>): set<string> {
    set v | v in values && Norm(v) != "" :: Norm(v)
  }

  lemma StringOrder(s: set<string>)
    ensures StrictOrderOn(s, StringLess)
  {
    forall a, b | a in s && b in s
      ensures !StringLess(a, a) && (a == b || StringLess(a, b) || StringLess(b, a))
    {
      StringLessTotal(a, b);
    }
    forall a, b, c | a in s && b in s && c in s && StringLess(a, b) && StringLess(b, c)
      ensures StringLess(a, c)
    {
      StringLessTransitive(a, b, c);
    }
  }

  lemma ConsSorted(x: string, tail: seq<string>)
    requires StrictlySorted(tail, StringLess)
    requires forall y :: y in Elements(tail) ==> StringLess(x, y)
    ensures StrictlySorted([x] + tail, StringLess) && Elements([x] + tail) == {x} + Elements(tail)
  {
    hide StringLess;
    forall k | 0 <= k < |tail| ensures StringLess(x, tail[k]) {
      assert tail[k] in Elements(tail);
    }
  }

  lemma TailSorted(sorted: seq<string>)
    requires sorted != [] && StrictlySorted(sorted, StringLess)
    ensures StrictlySorted(sorted[1..], StringLess) && Elements(sorted) == {sorted[0]} + Elements(sorted[1..])
    ensures forall y :: y in Elements(sorted[1..]) ==> StringLess(sorted[0], y)
  {
    hide StringLess;
    assert sorted == [sorted[0]] + sorted[1..];
  }

  lemma {:induction false} InsertNewSorted(sorted: seq<string>, x: string)
    requires StrictlySorted(sorted, StringLess)
    ensures StrictlySorted(InsertNew(sorted, x), StringLess)
    ensures Elements(InsertNew(sorted, x)) == Elements(sorted) + {x}
  {
    hide StringLess;
    if sorted == [] {
      assert Elements([x]) == {x};
    } else {
      StringLessTotal(x, sorted[0]);
      TailSorted(sorted);
      if x == sorted[0] {
      } else if StringLess(x, sorted[0]) {
        forall y | y in Elements(sorted) ensures StringLess(x, y) {
          if y != sorted[0] { StringLessTransitive(x, sorted[0], y); }
        }
        ConsSorted(x, sorted);
      } else {
        InsertNewSorted(sorted[1..], x);
        ConsSorted(sorted[0], InsertNew(sorted[1..], x));
      }
    }
  }

  /** The cleaned list is the sorted listing of the normalized values. */
  lemma {:induction false} CleanListing(values: seq<string>)
    ensures StrictlySorted(Clean(values), StringLess) && Elements(Clean(values)) == CleanSet(values)
  {
    hide Norm;
    if values != [] {
      CleanListing(values[1..]);
      assert values == [values[0]] + values[1..];
      InsertNewSorted(Clean(values[1..]), Norm(values[0]));
      assert CleanSet(values) == CleanSet(values[1..]) + if Norm(values[0]) == "" then {} else {Norm(values[0])};
    }
  }

  /** Two lists with the same normalized values clean to the same list. */
  lemma CleanForgetsOrder(a: seq<string>, b: seq<string>)
    requires CleanSet(a) == CleanSet(b)
    ensures Clean(a) == Clean(b)
  {
    CleanListing(a);
    CleanListing(b);
    StringOrder(CleanSet(a));
    SortedListingUnique(Clean(a), Clean(b), StringLess);
  }

  /** Cleaning is idempotent. */
  lemma CleanIdempotent(values: seq<string>)
    ensures Clean(Clean(values)) == Clean(values)
  {
    hide Norm, Clean;
    CleanListing(values);
    forall v | v in Clean(values) ensures v != "" && Norm(v) == v {
      assert v in Elements(Clean(values));
      var w :| w in values && Norm(w) == v;
      NormIdempotent(w);
    }
    assert forall v :: v in CleanSet(values) <==> v in Clean(values) by {
      assert forall v :: v in Elements(Clean(values)) <==> v in Clean(values);
    }
    assert CleanSet(Clean(values)) == CleanSet(values);
    CleanForgetsOrder(Clean(values), values);
  }

  /** cleanInfohashes: the loop with its seen set, then the sort. */
  method CleanInfohashes(values: seq<string>) returns (out: seq<string>)
    ensures out == Clean(values)
  {
    hide Norm, Clean;
    var seen: set<string> := {};
    var found: seq<string> := [];
    for k := 0 to |values|
      invariant Distinct(found) && Elements(found) == seen == CleanSet(values[..k])
    {
      var value := Norm(values[k]);
      assert CleanSet(values[..k + 1]) == CleanSet(values[..k]) + if value == "" then {} else {value} by {
        assert values[..k + 1] == values[..k] + [values[k]];
      }
      if value == "" || value in seen {
        continue;
      }
      assert value !in Elements(found) && value !in found;
      seen, found := seen + {value}, found + [value];
    }
    assert values[..|values|] == values;
    StringOrder(Elements(found));
    out := Sort(found, StringLess);
    CleanListing(values);
    SortedListingUnique(out, Clean(values), StringLess);
  }

  /** intersectInfohashes: the cleaned values the two lists share. */
  method IntersectInfohashes(left: seq<string>, right: seq<string>) returns (out: seq<string>)
    ensures StrictlySorted(out, StringLess) && Elements(out) == CleanSet(left) * CleanSet(right)
    ensures Clean(out) == out
  {
    hide Norm, Clean;
    if |left| == 0 || |right| == 0 {
      CleanOfNothing();
      return [];
    }
    var allowed := CleanInfohashes(right);
    var candidates := CleanInfohashes(left);
    CleanListing(right);
    CleanListing(left);
    out := [];
    for k := 0 to |candidates|
      invariant StrictlySorted(out, StringLess)
      invariant Elements(out) == Elements(candidates[..k]) * Elements(allowed)
    {
      assert candidates[..k + 1] == candidates[..k] + [candidates[k]];
      if candidates[k] in allowed {
        forall j | 0 <= j < |out| ensures StringLess(out[j], candidates[k]) {
          assert out[j] in Elements(out) && out[j] in candidates[..k];
        }
        assert Elements(out + [candidates[k]]) == Elements(out) + {candidates[k]};
        out := out + [candidates[k]];
      }
    }
    assert candidates[..|candidates|] == candidates;
    SubListIsClean(out, left);
  }

  lemma CleanOfNothing()
    ensures Clean([]) == [] && CleanSet([]) == {} && Elements<string>([]) == {}
  {}

  /** A sorted list of values taken from a cleaned list is itself clean. */
  lemma SubListIsClean(out: seq<string>, left: seq<string>)
    requires StrictlySorted(out, StringLess) && Elements(out) <= CleanSet(left)
    ensures Clean(out) == out
  {
    hide Norm, Clean;
    forall v | v in out ensures v != "" && Norm(v) == v {
      assert v in Elements(out);
      var w :| w in left && Norm(w) == v;
      NormIdempotent(w);
    }
    CleanListing(out);
    assert CleanSet(out) == Elements(out);
    StringOrder(Elements(out));
    SortedListingUnique(Clean(out), out, StringLess);
  }

  // ---------- Proofs and witnesses ----------

  /** RequestedAt and WitnessedAt are None when their text is not RFC 3339. */
  datatype Witness = Witness(
    author: string, pubKey: string, signature: Signature, role: string, challenge: string,
    requestedAt: Option<int>, witnessedAt: Option<int>, infohashes: seq<string>)

  /** `start` and `end` are the instants window_start and window_end parse to. */
  datatype Proof = Proof(
    id: string, author: string, pubKey: string, signature: Signature, startText: string, start: int, end: int,
    infohashes: seq<string>, seedingCount: int, witnesses: seq<Witness>, network: string)

  datatype Signature = Unsigned | Sig(key: string, payload: Payload)

  datatype Payload =
    | NodePayload(id: string, author: string, pubKey: string, start: int, end: int,
                  infohashes: seq<string>, seedingCount: int, network: string)
    | WitnessPayload(proof: Payload, author: string, pubKey: string, role: string, challenge: string,
                     requestedAt: Option<int>, witnessedAt: Option<int>, infohashes: seq<string>)

  /** proofWindow accepts the window. */
  predicate WindowOk(p: Proof) {
    p.start == AlignToWindow(p.start) && p.end == p.start + WINDOW
  }

  function PayloadOf(p: Proof): Payload {
    NodePayload(Trim(p.id), Trim(p.author), Norm(p.pubKey), p.start, p.end, Clean(p.infohashes), p.seedingCount, Trim(p.network))
  }

  function WitnessPayloadOf(p: Proof, w: Witness): Payload {
    WitnessPayload(PayloadOf(p), Trim(w.author), Norm(w.pubKey), Trim(w.role), Norm(w.challenge),
                   w.requestedAt, w.witnessedAt, Clean(w.infohashes))
  }

  /** hex.DecodeString succeeds on the normalized text. */
  predicate IsHex(s: string) {
    |s| % 2 == 0 && forall k :: 0 <= k < |s| ==> IsLowerHex(s[k])
  }

  /** decodeHexKey accepts a public key. */
  predicate IsKey(s: string) {
    |Norm(s)| == 64 && IsHex(Norm(s))
  }

  predicate Verifies(key: string, payload: Payload, signature: Signature) {
    signature == Sig(Norm(key), payload)
  }

  /** verifyProofNodeSignature. */
  predicate NodeSignatureOk(p: Proof) {
    IsKey(p.pubKey) && WindowOk(p) && Verifies(p.pubKey, PayloadOf(p), p.signature)
  }

  const CREDIT_SUFFIX := "/credit/online"

  predicate IsCreditAuthor(author: string) {
    HasSuffix(Trim(author), CREDIT_SUFFIX)
  }

  /** validateProofWitness. */
  predicate WitnessOk(p: Proof, w: Witness) {
    && Trim(w.author) != "" && Trim(w.pubKey) != "" && IsCreditAuthor(w.author) && Trim(w.role) != ""
    && Norm(w.challenge) != "" && IsHex(Norm(w.challenge))
    && w.requestedAt.Some? && w.witnessedAt.Some?
    && WindowOk(p)
    && p.start <= w.requestedAt.value <= p.end + PROOF_MAX_AGE
    && w.requestedAt.value <= w.witnessedAt.value <= w.requestedAt.value + REQUEST_TTL
    && |Clean(w.infohashes)| >= 1
    && (forall v :: v in Clean(w.infohashes) ==> v in Clean(p.infohashes))
  }

  /** VerifyProofWitness. */
  predicate WitnessVerifies(p: Proof, w: Witness) {
    WitnessOk(p, w) && IsKey(w.pubKey) && Verifies(w.pubKey, WitnessPayloadOf(p, w), w.signature)
  }

  const DHT_NEIGHBOR := "dht_neighbor"
  const RANDOM_CHECK := "random_check"

  /** allowedWitnessRoles; 0 for an unknown role. */
  function RoleQuota(role: string): nat {
    if role == DHT_NEIGHBOR then 3 else if role == RANDOM_CHECK then 2 else 0
  }

  function RoleCount(ws: seq<Witness>, role: string): nat {
    if ws == [] then 0 else (if Trim(ws[0].role) == role then 1 else 0) + RoleCount(ws[1..], role)
  }

  /** ValidateWitnessEligibility: known roles within their quotas, and nobody witnesses for itself. */
  ghost predicate WitnessesEligible(p: Proof) {
    && (forall w <- p.witnesses :: WitnessEligible(p, w))
    && RolesWithinQuota(p.witnesses)
  }

  predicate WitnessEligible(p: Proof, w: Witness) {
    RoleQuota(Trim(w.role)) > 0 && Trim(w.author) != Trim(p.author) && Norm(w.pubKey) != Norm(p.pubKey)
  }

  predicate RolesWithinQuota(ws: seq<Witness>) {
    forall w <- ws :: RoleCount(ws, Trim(w.role)) <= RoleQuota(Trim(w.role))
  }

  ghost predicate DistinctWitnesses(ws: seq<Witness>) {
    && (forall w <- ws :: Trim(w.author) != "")
    && (forall i, j :: 0 <= i < j < |ws| ==> Trim(ws[i].author) != Trim(ws[j].author))
  }

  /** ValidateOnlineProof without a clock, as the store calls it; `idOf` is ComputeProofID of a key and a start. */
  ghost predicate ProofValid(p: Proof, idOf: (string, int) -> string) {
    && IsCreditAuthor(p.author) && Trim(p.network) != "" && WindowOk(p)
    && Trim(p.id) == idOf(Norm(p.pubKey), p.start)
    && |Clean(p.infohashes)| >= 1 && p.seedingCount == |Clean(p.infohashes)|
    && NodeSignatureOk(p)
    && |p.witnesses| >= 1 && DistinctWitnesses(p.witnesses)
    && (forall w <- p.witnesses :: WitnessVerifies(p, w))
    && WitnessesEligible(p)
  }

  function CountIn(counts: map<string, nat>, role: string): nat {
    if role in counts then counts[role] else 0
  }

  /** ValidateWitnessEligibility's loop with its role counts. */
  method CheckRoles(p: Proof) returns (ok: bool)
    ensures ok <==> WitnessesEligible(p)
  {
    hide Trim, Norm, RoleQuota, RoleCount, WitnessEligible;
    var counts: map<string, nat> := map[];
    var ws := p.witnesses;
    NoRoles();
    for k := 0 to |ws|
      invariant forall j :: 0 <= j < k ==> WitnessEligible(p, ws[j])
      invariant forall role :: CountIn(counts, role) == RoleCount(ws[..k], role)
      invariant forall role <- counts :: counts[role] <= RoleQuota(role)
      invariant forall j :: 0 <= j < k ==> Trim(ws[j].role) in counts
    {
      var role := Trim(ws[k].role);
      EligibleParts(p, ws[k]);
      if RoleQuota(role) == 0 || Trim(ws[k].author) == Trim(p.author) || Norm(ws[k].pubKey) == Norm(p.pubKey) {
        assert ws[k] in p.witnesses;
        return false;
      }
      assert ws[..k + 1] == ws[..k] + [ws[k]];
      forall r { RoleCountSnoc(ws[..k], ws[k], r); }
      counts := counts[role := CountIn(counts, role) + 1];
      if counts[role] > RoleQuota(role) {
        assert ws == ws[..k + 1] + ws[k + 1..];
        RoleCountGrows(ws[..k + 1], ws[k + 1..], role);
        assert ws[k] in p.witnesses;
        return false;
      }
    }
    assert ws[..|ws|] == ws;
    return true;
  }

  lemma NoRoles()
    ensures forall role :: RoleCount([], role) == 0
  {}

  lemma EligibleParts(p: Proof, w: Witness)
    ensures WitnessEligible(p, w)
       <==> RoleQuota(Trim(w.role)) > 0 && Trim(w.author) != Trim(p.author) && Norm(w.pubKey) != Norm(p.pubKey)
  {}

  lemma {:induction false} RoleCountGrows(a: seq<Witness>, b: seq<Witness>, role: string)
    ensures RoleCount(a + b, role) == RoleCount(a, role) + RoleCount(b, role)
  {
    hide Trim;
    if a == [] {
      assert a + b == b;
    } else {
      assert (a + b)[1..] == a[1..] + b;
      RoleCountGrows(a[1..], b, role);
    }
  }

  lemma RoleCountSnoc(a: seq<Witness>, w: Witness, role: string)
    ensures RoleCount(a + [w], role) == RoleCount(a, role) + if Trim(w.role) == role then 1 else 0
  {
    hide Trim;
    RoleCountGrows(a, [w], role);
    assert [w][1..] == [];
  }

  /** Adding witnesses changes neither the node's signature nor what earlier witnesses signed. */
  lemma WitnessesAreIndependent(p: Proof, ws: seq<Witness>, w: Witness)
    ensures PayloadOf(p.(witnesses := ws)) == PayloadOf(p)
    ensures WitnessVerifies(p.(witnesses := ws), w) == WitnessVerifies(p, w)
    ensures NodeSignatureOk(p.(witnesses := ws)) == NodeSignatureOk(p)
  {
    hide Trim, Norm, Clean, AlignToWindow, IsCreditAuthor, IsKey, IsHex;
  }

  // ---------- Building a proof ----------

  /** An identity that may sign proofs. */
  datatype Identity = Identity(author: string, pubKey: string)

  predicate CanSign(id: Identity) {
    IsKey(id.pubKey) && IsCreditAuthor(id.author)
  }

  /** NewOnlineProof followed by SignProof; `startText` is the window start as text. */
  function NewSignedProof(id: Identity, start: int, startText: string, infohashes: seq<string>, network: string,
                          idOf: (string, int) -> string): Proof
  {
    var clean := Clean(infohashes);
    var p := Proof(idOf(Norm(id.pubKey), start), Trim(id.author), Norm(id.pubKey), Unsigned, startText, start, start + WINDOW,
                   clean, |clean|, [], Trim(network));
    p.(signature := Sig(Norm(id.pubKey), PayloadOf(p)))
  }

  lemma NewProofIsSigned(id: Identity, start: int, startText: string, infohashes: seq<string>, network: string,
                         idOf: (string, int) -> string)
    requires CanSign(id) && start == AlignToWindow(start)
    ensures var p := NewSignedProof(id, start, startText, infohashes, network, idOf);
            NodeSignatureOk(p) && Clean(p.infohashes) == p.infohashes && IsCreditAuthor(p.author)
            && Trim(p.author) == Trim(id.author) && Norm(p.pubKey) == Norm(id.pubKey) && Trim(p.network) == Trim(network)
  {
    hide Clean, Trim, Norm, AlignToWindow;
    NormIdempotent(id.pubKey);
    CleanIdempotent(infohashes);
    TrimIsTrimmed(id.author);
    TrimIsTrimmed(network);
  }
}
