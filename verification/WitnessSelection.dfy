/** Choosing which peers to ask for a witness, and collecting their replies (internal/aip2p/credit_witness.go). */
module WitnessSelection {
  import opened Sorting
  import opened CreditProof

  type Peer = string

  /** SHA-256 digests. */
  type Digest = seq<bv8>

  const DHT_NEIGHBORS := 3
  const RANDOM_CHECKS := 2

  datatype Candidate = Candidate(peer: Peer, role: string)

  // ---------- XOR distance ----------

  /** xorWitnessDistance on two digests of the same length. */
  function XorDistance(target: Digest, peer: Digest): (d: Digest)
    requires |target| == |peer|
    ensures |d| == |peer|
  {
    seq(|peer|, k requires 0 <= k < |peer| => target[k] ^ peer[k])
  }

  lemma XorByteInjective(x: bv8, a: bv8, b: bv8)
    ensures x ^ a == x ^ b ==> a == b
  {}

  /** Peers at the same distance from a target have the same digest. */
  lemma XorDistanceInjective(target: Digest, a: Digest, b: Digest)
    requires |target| == |a| == |b|
    ensures XorDistance(target, a) == XorDistance(target, b) ==> a == b
  {
    if XorDistance(target, a) == XorDistance(target, b) {
      forall k | 0 <= k < |a| ensures a[k] == b[k] {
        assert XorDistance(target, a)[k] == XorDistance(target, b)[k];
        XorByteInjective(target[k], a[k], b[k]);
      }
    }
  }

  // ---------- The two orders ----------

  /** Compare by a digest first and by the printed peer id second. */
  function ByDigest(digest: Peer -> Digest, show: Peer -> string): (Peer, Peer) -> bool {
    (a: Peer, b: Peer) =>
      BytesLess(digest(a), digest(b)) || (digest(a) == digest(b) && StringLess(show(a), show(b)))
  }

  /** With distinct printed ids the order has no ties. */
  lemma ByDigestIsOrder(s: set<Peer>, digest: Peer -> Digest, show: Peer -> string)
    requires forall a, b :: a in s && b in s && show(a) == show(b) ==> a == b
    ensures StrictOrderOn(s, ByDigest(digest, show))
  {
    var less := ByDigest(digest, show);
    forall a, b | a in s && b in s
      ensures !less(a, a) && (a != b ==> less(a, b) || less(b, a))
    {
      BytesLessTotal(digest(a), digest(b));
      StringLessTotal(show(a), show(b));
    }
    forall a, b, c | a in s && b in s && c in s && less(a, b) && less(b, c)
      ensures less(a, c)
    {
      if BytesLess(digest(a), digest(b)) && BytesLess(digest(b), digest(c)) {
        BytesLessTransitive(digest(a), digest(b), digest(c));
      }
      if StringLess(show(a), show(b)) && StringLess(show(b), show(c)) {
        StringLessTransitive(show(a), show(b), show(c));
      }
    }
  }

  // ---------- What is chosen ----------

  /** The peers that count: named and connected. */
  ghost function Connected(peers: seq<Peer>, isConnected: Peer -> bool): set<Peer> {
    set p | p in peers && p != "" && isConnected(p)
  }

  function Tag(peers: seq<Peer>, role: string): (out: seq<Candidate>)
    ensures |out| == |peers|
    ensures forall k :: 0 <= k < |peers| ==> out[k] == Candidate(peers[k], role)
  {
    seq(|peers|, k requires 0 <= k < |peers| => Candidate(peers[k], role))
  }

  function Min(a: nat, b: nat): nat {
    if a < b then a else b
  }

  /** The choice as a relation between the set of connected peers and the candidates. */
  ghost predicate Chosen(s: set<Peer>, near: (Peer, Peer) -> bool, score: (Peer, Peer) -> bool, out: seq<Candidate>) {
    exists nearest: seq<Peer>, rest: seq<Peer> ::
      ChosenFrom(s, near, score, nearest, rest, out)
  }

  ghost predicate ChosenFrom(s: set<Peer>, near: (Peer, Peer) -> bool, score: (Peer, Peer) -> bool,
                             nearest: seq<Peer>, rest: seq<Peer>, out: seq<Candidate>)
  {
    var k := Min(|nearest|, DHT_NEIGHBORS);
    && StrictlySorted(nearest, near) && Elements(nearest) == s
    && StrictlySorted(rest, score) && Elements(rest) == s - Elements(nearest[..k])
    && out == Tag(nearest[..k], DHT_NEIGHBOR) + Tag(rest[..Min(|rest|, RANDOM_CHECKS)], RANDOM_CHECK)
  }

  /** The choice depends only on the set of connected peers. */
  lemma ChoiceIsDetermined(s: set<Peer>, near: (Peer, Peer) -> bool, score: (Peer, Peer) -> bool,
                           a: seq<Candidate>, b: seq<Candidate>)
    requires StrictOrderOn(s, near) && StrictOrderOn(s, score)
    requires Chosen(s, near, score, a) && Chosen(s, near, score, b)
    ensures a == b
  {
    var na, ra :| ChosenFrom(s, near, score, na, ra, a);
    var nb, rb :| ChosenFrom(s, near, score, nb, rb, b);
    SortedListingUnique(na, nb, near);
    SortedListingUnique(ra, rb, score);
  }

  predicate NotPickedAsNearest(out: seq<Candidate>, p: Peer) {
    forall j :: 0 <= j < Min(|out|, DHT_NEIGHBORS) ==> out[j].peer != p
  }

  lemma ListingSizes(s: set<Peer>, near: (Peer, Peer) -> bool, score: (Peer, Peer) -> bool,
                     nearest: seq<Peer>, rest: seq<Peer>, out: seq<Candidate>)
    requires StrictOrderOn(s, near) && StrictOrderOn(s, score) && ChosenFrom(s, near, score, nearest, rest, out)
    ensures var k := Min(|nearest|, DHT_NEIGHBORS);
            && Distinct(nearest) && Distinct(rest) && |nearest| == |s| && |rest| == |s| - k
            && (forall p :: p in nearest <==> p in s)
            && (forall p :: p in rest <==> p in s && p !in nearest[..k])
  {
    var k := Min(|nearest|, DHT_NEIGHBORS);
    SortedIsDistinct(nearest, near);
    SortedIsDistinct(rest, score);
    DistinctSize(nearest);
    DistinctSize(rest);
    DistinctSize(nearest[..k]);
    assert forall p :: p in nearest <==> p in Elements(nearest);
    assert forall p :: p in rest <==> p in Elements(rest);
    assert Elements(nearest[..k]) <= s;
  }

  lemma PicksOf(nearest: seq<Peer>, rest: seq<Peer>, k: nat, m: nat, out: seq<Candidate>)
    requires k <= |nearest| && m <= |rest| && Distinct(nearest) && Distinct(rest)
    requires forall p :: p in rest ==> p !in nearest[..k]
    requires out == Tag(nearest[..k], DHT_NEIGHBOR) + Tag(rest[..m], RANDOM_CHECK)
    ensures |out| == k + m
    ensures forall i :: 0 <= i < k ==> out[i] == Candidate(nearest[i], DHT_NEIGHBOR) && out[i].peer in nearest
    ensures forall i :: k <= i < k + m ==> out[i] == Candidate(rest[i - k], RANDOM_CHECK) && out[i].peer in rest
    ensures forall i, j :: 0 <= i < j < |out| ==> out[i].peer != out[j].peer
  {
    assert forall i :: 0 <= i < k ==> out[i].peer == nearest[i] && nearest[i] in nearest[..k];
    assert forall i :: k <= i < k + m ==> out[i].peer == rest[i - k] && rest[i - k] in rest;
  }

  /** The first picks are the nearest peers, no peer is picked twice, and every pick is a connected peer. */
  lemma ChoiceIsNearest(s: set<Peer>, near: (Peer, Peer) -> bool, score: (Peer, Peer) -> bool, out: seq<Candidate>)
    requires StrictOrderOn(s, near) && StrictOrderOn(s, score) && Chosen(s, near, score, out)
    ensures |out| == Min(|s|, DHT_NEIGHBORS + RANDOM_CHECKS)
    ensures forall i :: 0 <= i < |out| ==> out[i].peer in s
    ensures forall i, j :: 0 <= i < j < |out| ==> out[i].peer != out[j].peer
    ensures forall i :: 0 <= i < |out| ==> out[i].role == if i < DHT_NEIGHBORS then DHT_NEIGHBOR else RANDOM_CHECK
    ensures forall i, p | 0 <= i < Min(|out|, DHT_NEIGHBORS) && p in s && NotPickedAsNearest(out, p) :: near(out[i].peer, p)
  {
    hide StrictOrderOn, Elements, Tag;
    var nearest, rest :| ChosenFrom(s, near, score, nearest, rest, out);
    ListingSizes(s, near, score, nearest, rest, out);
    var k := Min(|nearest|, DHT_NEIGHBORS);
    var m := Min(|rest|, RANDOM_CHECKS);
    PicksOf(nearest, rest, k, m, out);
    hide StrictlySorted, Distinct, ChosenFrom;
    forall i, p | 0 <= i < k && p in s && NotPickedAsNearest(out, p)
      ensures near(out[i].peer, p)
    {
      assert forall q :: 0 <= q < k ==> nearest[q] == out[q].peer;
      FartherComesLater(nearest, near, k, i, p);
    }
  }

  /** Both kinds of picks stand in order, and a peer that is not picked at all has a higher score than every check. */
  lemma ChoiceIsInOrder(s: set<Peer>, near: (Peer, Peer) -> bool, score: (Peer, Peer) -> bool, out: seq<Candidate>)
    requires StrictOrderOn(s, near) && StrictOrderOn(s, score) && Chosen(s, near, score, out)
    ensures forall i, j :: 0 <= i < j < Min(|out|, DHT_NEIGHBORS) ==> near(out[i].peer, out[j].peer)
    ensures forall i, j :: DHT_NEIGHBORS <= i < j < |out| ==> score(out[i].peer, out[j].peer)
    ensures forall i, p | DHT_NEIGHBORS <= i < |out| && p in s && NotPicked(out, p) :: score(out[i].peer, p)
  {
    hide StrictOrderOn, Elements, Tag;
    var nearest, rest :| ChosenFrom(s, near, score, nearest, rest, out);
    ListingSizes(s, near, score, nearest, rest, out);
    var k := Min(|nearest|, DHT_NEIGHBORS);
    var m := Min(|rest|, RANDOM_CHECKS);
    PicksOf(nearest, rest, k, m, out);
    hide Distinct, ChosenFrom;
    forall i, p | DHT_NEIGHBORS <= i < |out| && p in s && NotPicked(out, p)
      ensures score(out[i].peer, p)
    {
      assert forall q :: 0 <= q < m ==> rest[q] == out[k + q].peer;
      assert forall q :: 0 <= q < k ==> nearest[q] == out[q].peer;
      assert p in rest;
      FartherComesLater(rest, score, m, i - k, p);
    }
  }

  predicate NotPicked(out: seq<Candidate>, p: Peer) {
    forall j :: 0 <= j < |out| ==> out[j].peer != p
  }

  lemma FartherComesLater(nearest: seq<Peer>, near: (Peer, Peer) -> bool, k: nat, i: nat, p: Peer)
    requires StrictlySorted(nearest, near) && i < k <= |nearest| && p in nearest
    requires forall q :: 0 <= q < k ==> nearest[q] != p
    ensures near(nearest[i], p)
  {
    var j :| 0 <= j < |nearest| && nearest[j] == p;
  }

  /** Any sub-selection of the picks keeps within the role quotas of a proof. */
  lemma SubSelectionWithinQuota(s: set<Peer>, near: (Peer, Peer) -> bool, score: (Peer, Peer) -> bool,
                                out: seq<Candidate>, picked: set<nat>, role: string)
    requires StrictOrderOn(s, near) && StrictOrderOn(s, score) && Chosen(s, near, score, out)
    requires forall i <- picked :: i < |out| && out[i].role == role
    ensures |picked| <= RoleQuota(role)
  {
    hide StrictOrderOn, Chosen;
    ChoiceIsNearest(s, near, score, out);
    assert DHT_NEIGHBOR != RANDOM_CHECK by { assert DHT_NEIGHBOR[0] != RANDOM_CHECK[0]; }
    var low: set<nat>, high: set<nat> := {0, 1, 2}, {3, 4};
    if role == DHT_NEIGHBOR {
      assert picked <= low;
      SubsetSize(picked, low);
    } else if role == RANDOM_CHECK {
      assert picked <= high;
      SubsetSize(picked, high);
    } else {
      assert picked == {};
    }
  }

  /** The loop that drops blank, repeated and unconnected peers. */
  method CollectConnected(peers: seq<Peer>, isConnected: Peer -> bool) returns (connected: seq<Peer>)
    ensures Distinct(connected) && Elements(connected) == Connected(peers, isConnected)
  {
    var seen: set<Peer> := {};
    connected := [];
    for k := 0 to |peers|
      invariant seen == set p | p in peers[..k] && p != ""
      invariant Distinct(connected) && Elements(connected) == Connected(peers[..k], isConnected)
    {
      var peer := peers[k];
      assert peers[..k + 1] == peers[..k] + [peer];
      assert Connected(peers[..k + 1], isConnected)
          == Connected(peers[..k], isConnected) + if peer != "" && isConnected(peer) then {peer} else {};
      if peer == "" || peer in seen {
        continue;
      }
      assert peer !in Elements(connected) && peer !in connected;
      seen := seen + {peer};
      if isConnected(peer) {
        connected := connected + [peer];
      }
    }
    assert peers[..|peers|] == peers;
  }

  /** The loop over the nearest peers. */
  method TakeTagged(peers: seq<Peer>, limit: nat, role: string) returns (out: seq<Candidate>, used: set<Peer>)
    ensures var k := Min(|peers|, limit); out == Tag(peers[..k], role) && used == Elements(peers[..k])
  {
    out, used := [], {};
    var i := 0;
    while i < |peers| && i < limit
      invariant 0 <= i <= Min(|peers|, limit)
      invariant out == Tag(peers[..i], role) && used == Elements(peers[..i])
    {
      assert peers[..i + 1] == peers[..i] + [peers[i]];
      out := out + [Candidate(peers[i], role)];
      used := used + {peers[i]};
      i := i + 1;
    }
  }

  /** The peers not used yet. */
  method Unused(peers: seq<Peer>, used: set<Peer>) returns (remaining: seq<Peer>)
    requires Distinct(peers)
    ensures Distinct(remaining) && Elements(remaining) == Elements(peers) - used
  {
    remaining := [];
    for i := 0 to |peers|
      invariant Distinct(remaining) && Elements(remaining) == Elements(peers[..i]) - used
    {
      assert peers[..i + 1] == peers[..i] + [peers[i]];
      assert Elements(peers[..i + 1]) == Elements(peers[..i]) + {peers[i]};
      assert peers[i] !in peers[..i] && peers[i] !in Elements(remaining);
      assert Elements(remaining + [peers[i]]) == Elements(remaining) + {peers[i]};
      if peers[i] !in used {
        remaining := remaining + [peers[i]];
      }
    }
    assert peers[..|peers|] == peers;
  }

  /** Nearest to the target first; `digest` is the SHA-256 digest of a printed peer id, as long as that of the target. */
  function Near(target: Digest, digest: Peer -> Digest, show: Peer -> string): (Peer, Peer) -> bool
    requires forall p :: |digest(p)| == |target|
  {
    ByDigest(Distances(target, digest), show)
  }

  function Distances(target: Digest, digest: Peer -> Digest): Peer -> Digest
    requires forall p :: |digest(p)| == |target|
  {
    (p: Peer) => if |digest(p)| == |target| then XorDistance(target, digest(p)) else []
  }

  /** The nearest picks are strictly nearer by XOR distance than any peer that is not picked as one of them, whose digest is
      another. */
  lemma NearestByXor(s: set<Peer>, target: Digest, digest: Peer -> Digest, show: Peer -> string, score: (Peer, Peer) -> bool,
                     out: seq<Candidate>, i: nat, p: Peer)
    requires forall q :: |digest(q)| == |target|
    requires forall a, b :: show(a) == show(b) ==> a == b
    requires StrictOrderOn(s, score) && Chosen(s, Near(target, digest, show), score, out)
    requires i < Min(|out|, DHT_NEIGHBORS) && p in s && NotPickedAsNearest(out, p)
    ensures digest(p) != digest(out[i].peer) ==>
              BytesLess(XorDistance(target, digest(out[i].peer)), XorDistance(target, digest(p)))
  {
    hide StrictOrderOn, BytesLess;
    ByDigestIsOrder(s, Distances(target, digest), show);
    ChoiceIsNearest(s, Near(target, digest, show), score, out);
    hide Chosen, NotPickedAsNearest;
    assert Near(target, digest, show)(out[i].peer, p);
    XorDistanceInjective(target, digest(out[i].peer), digest(p));
  }

  /** selectWitnessCandidates for a target key that is not blank. */
  method SelectCandidates(peers: seq<Peer>, target: Digest, digest: Peer -> Digest, score: Peer -> Digest,
                          show: Peer -> string, isConnected: Peer -> bool) returns (out: seq<Candidate>)
    requires forall p :: |digest(p)| == |target|
    requires forall a, b :: show(a) == show(b) ==> a == b
    ensures Chosen(Connected(peers, isConnected), Near(target, digest, show), ByDigest(score, show), out)
    ensures forall k :: 0 <= k < |out| ==> out[k].peer in peers && out[k].peer != "" && isConnected(out[k].peer)
    ensures |out| < 5 ==> forall p <- peers :: p != "" && isConnected(p) ==> exists k :: 0 <= k < |out| && out[k].peer == p
  {
    var distance := Distances(target, digest);
    var near, byScore := Near(target, digest, show), ByDigest(score, show);
    var connected := CollectConnected(peers, isConnected);
    ByDigestIsOrder(Connected(peers, isConnected), distance, show);
    ByDigestIsOrder(Connected(peers, isConnected), score, show);
    hide ByDigest, Connected;
    ghost var s := Connected(peers, isConnected);
    ConnectedPeers(peers, isConnected);
    var nearest := Sort(connected, near);
    SortedIsDistinct(nearest, near);
    var first, used := TakeTagged(nearest, DHT_NEIGHBORS, DHT_NEIGHBOR);
    var remaining := Unused(nearest, used);
    SubsetOrder(Elements(nearest), Elements(remaining), byScore);
    var rest := Sort(remaining, byScore);
    var others, _ := TakeTagged(rest, RANDOM_CHECKS, RANDOM_CHECK);
    out := first + others;
    assert ChosenFrom(s, near, byScore, nearest, rest, out);
    ChoiceIsNearest(s, near, byScore, out);
    FewAreAllPicked(s, near, byScore, out);
  }

  lemma ConnectedPeers(peers: seq<Peer>, isConnected: Peer -> bool)
    ensures forall p :: p in Connected(peers, isConnected) <==> p in peers && p != "" && isConnected(p)
  {}

  /** With fewer than five connected peers all of them are picked. */
  lemma FewAreAllPicked(s: set<Peer>, near: (Peer, Peer) -> bool, score: (Peer, Peer) -> bool, out: seq<Candidate>)
    requires StrictOrderOn(s, near) && StrictOrderOn(s, score) && Chosen(s, near, score, out)
    ensures |out| < 5 ==> forall p <- s :: exists k :: 0 <= k < |out| && out[k].peer == p
  {
    hide StrictOrderOn, Chosen;
    ChoiceIsNearest(s, near, score, out);
    if |out| < 5 {
      var picked: seq<Peer> := seq(|out|, k requires 0 <= k < |out| => out[k].peer);
      DistinctSize(picked);
      SameSizeSubset(Elements(picked), s);
      forall p | p in s ensures exists k :: 0 <= k < |out| && out[k].peer == p {
        assert p in Elements(picked);
        var k :| 0 <= k < |picked| && picked[k] == p;
        assert out[k].peer == p;
      }
    }
  }

  lemma SameSizeSubset(a: set<Peer>, b: set<Peer>)
    requires a <= b && |a| == |b|
    ensures a == b
  {
    if p :| p in b && p !in a {
      assert a <= b - {p};
      SubsetSize(a, b - {p});
    }
  }

  lemma SubsetOrder(s: set<Peer>, t: set<Peer>, less: (Peer, Peer) -> bool)
    requires t <= s && StrictOrderOn(s, less)
    ensures StrictOrderOn(t, less)
  {}

  // ---------- Collecting replies ----------

  /** The reply of one candidate: a witness, nothing, or an error, which a cancelled or late request keeps quiet about. */
  datatype Outcome<W> = Got(w: W) | Nothing | Failed(quiet: bool)

  /** Replies in the order they arrive, each with the index of its candidate. */
  datatype Arrival<W> = Arrival(index: nat, outcome: Outcome<W>)

  ghost predicate OnePerCandidate<W>(arrivals: seq<Arrival<W>>) {
    forall i, j :: 0 <= i < j < |arrivals| ==> arrivals[i].index != arrivals[j].index
  }

  function Successes<W>(arrivals: seq<Arrival<W>>): seq<Arrival<W>> {
    if arrivals == [] then []
    else
      var init, last := arrivals[..|arrivals| - 1], arrivals[|arrivals| - 1];
      Successes(init) + if last.outcome.Got? then [last] else []
  }

  ghost predicate LoudFailure<W>(arrivals: seq<Arrival<W>>) {
    exists k :: 0 <= k < |arrivals| && arrivals[k].outcome.Failed? && !arrivals[k].outcome.quiet
  }

  function ByIndex<W>(): (Arrival<W>, Arrival<W>) -> bool {
    (a: Arrival<W>, b: Arrival<W>) => a.index < b.index
  }

  datatype Collected<W> = Witnesses(replies: seq<Arrival<W>>) | AllFailed

  lemma {:induction false} SuccessesAreArrivals<W(!new)>(arrivals: seq<Arrival<W>>)
    requires OnePerCandidate(arrivals)
    ensures forall a :: a in Successes(arrivals) <==> a in arrivals && a.outcome.Got?
    ensures Distinct(Successes(arrivals)) && OnePerCandidate(Successes(arrivals))
  {
    if arrivals != [] {
      var init, last := arrivals[..|arrivals| - 1], arrivals[|arrivals| - 1];
      assert arrivals == init + [last];
      SuccessesAreArrivals(init);
      forall a | a in Successes(init) ensures a.index != last.index {
        assert a in init;
      }
    }
  }

  /** collectWitnessesWithRequester, given the replies in arrival order. For every order it returns the first
      min(limit, successes) successful replies, put back into candidate order; with none it fails if some
      request failed loudly. */
  method CollectWitnesses<W(==, !new)>(arrivals: seq<Arrival<W>>, limit: int) returns (result: Collected<W>)
    requires OnePerCandidate(arrivals)
    ensures result.AllFailed? <==> limit > 0 && Successes(arrivals) == [] && LoudFailure(arrivals)
    ensures (forall a <- arrivals :: a.outcome.Failed? ==> a.outcome.quiet) ==> result.Witnesses?
    ensures limit > 0 && (forall a <- arrivals :: !a.outcome.Got?) && (exists a <- arrivals :: a.outcome == Failed(false)) ==>
              result.AllFailed?
    ensures result.Witnesses? ==>
              && |result.replies| == (if limit <= 0 then 0 else Min(limit, |Successes(arrivals)|))
              && StrictlySorted(result.replies, ByIndex())
              && Elements(result.replies) == Elements(Successes(arrivals)[..|result.replies|])
  {
    if |arrivals| == 0 || limit <= 0 {
      assert Elements<Arrival<W>>([]) == Elements(Successes(arrivals)[..0]);
      return Witnesses([]);
    }
    var collected: seq<Arrival<W>> := [];
    var failed := false;
    var k := 0;
    while k < |arrivals| && |collected| < limit
      invariant 0 <= k <= |arrivals| && |collected| <= limit
      invariant collected == Successes(arrivals[..k])
      invariant failed <==> LoudFailure(arrivals[..k])
    {
      var arrival := arrivals[k];
      assert arrivals[..k + 1] == arrivals[..k] + [arrival];
      assert arrivals[..k + 1][..k] == arrivals[..k];
      k := k + 1;
      if arrival.outcome.Failed? {
        if !arrival.outcome.quiet {
          failed := true;
        }
        continue;
      }
      if arrival.outcome.Nothing? {
        continue;
      }
      collected := collected + [arrival];
    }
    SuccessesPrefix(arrivals, k);
    assert k == |arrivals| ==> arrivals[..k] == arrivals;
    if |collected| > 0 {
      SuccessesAreArrivals(arrivals[..k]);
      assert collected[0] in arrivals[..k] && collected[0] in arrivals;
      var sorted := Sort(collected, ByIndex());
      assert collected == Successes(arrivals)[..|collected|];
      return Witnesses(sorted);
    }
    if failed {
      return AllFailed;
    }
    return Witnesses([]);
  }

  lemma {:induction false} SuccessesPrefix<W>(arrivals: seq<Arrival<W>>, k: nat)
    requires k <= |arrivals|
    ensures |Successes(arrivals[..k])| <= |Successes(arrivals)|
    ensures Successes(arrivals[..k]) == Successes(arrivals)[..|Successes(arrivals[..k])|]
    decreases |arrivals| - k
  {
    if k == |arrivals| {
      assert arrivals[..k] == arrivals;
    } else {
      SuccessesPrefix(arrivals, k + 1);
      assert arrivals[..k + 1][..k] == arrivals[..k];
    }
  }
}
