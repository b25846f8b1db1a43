/** The identities the program makes itself (plain, HD master, derived child): what they can sign, and when it validates
    (internal/aip2p/identity.go:56-176, 327-393). */
module IdentityFamilies {
  import opened Delegations
  import opened HDPaths
  import opened Identity
  import opened IdentitySigning
  import opened Options
  import opened Text

  // ---------- Making identities ----------

  /** NewAgentIdentity for a generated seed; stamp is the creation time in UTC. */
  function NewPlain(env: Crypto, agentId: string, author: string, seed: string, stamp: string): Option<AgentIdentity> {
    if Trim(agentId) == "" then None
    else
      var pair := PairOf(env, seed);
      Some(AgentIdentity(Trim(agentId), Trim(author), ED25519, pair.public, pair.private, stamp,
                         false, "", "", "", "", "", None))
  }

  /** NewHDMasterIdentity with a given mnemonic. */
  function NewMaster(env: Crypto, agentId: string, author: string, mnemonic: string, stamp: string): Option<AgentIdentity> {
    if Trim(agentId) == "" || Trim(author) == "" || Trim(mnemonic) == "" || PathOf(env.mac, Trim(author)).None? then None
    else
      var path := PathOf(env.mac, Trim(author)).value;
      match DeriveKeys(env, Trim(mnemonic), path)
      case None => None
      case Some(pair) =>
        Some(AgentIdentity(Trim(agentId), Trim(author), ED25519, pair.public, "", stamp,
                           true, Trim(mnemonic), pair.public, path, "", "", None))
  }

  /** DeriveChildIdentity. */
  function DeriveChild(env: Crypto, id: AgentIdentity, author: string, stamp: string): Option<AgentIdentity> {
    if !Valid(env, id) || !id.hd || Trim(id.mnemonic) == "" then None
    else if RootOf(author) != Some(Trim(id.author)) || PathOf(env.mac, author).None? then None
    else
      var path := PathOf(env.mac, author).value;
      match DeriveKeys(env, id.mnemonic, path)
      case None => None
      case Some(pair) =>
        var child := AgentIdentity(id.agentId, Trim(author), ED25519, pair.public, pair.private, stamp,
                                   true, "", id.masterKey, path, id.author, id.publicKey, None);
        match ChildDelegation(env, id, child, stamp)
        case None => None
        case Some(d) => Some(child.(delegation := Some(d)))
  }

  /** A plain identity needs an agent id; a master also an author below agent:// and a mnemonic that gives a seed. */
  lemma MakingIsExact(env: Crypto, agentId: string, author: string, mnemonic: string, seed: string, stamp: string)
    requires CryptoOk(env)
    ensures NewPlain(env, agentId, author, seed, stamp).Some? <==> Trim(agentId) != ""
    ensures NewMaster(env, agentId, author, mnemonic, stamp).Some? <==>
              && Trim(agentId) != "" && Trim(mnemonic) != "" && SplitAuthor(author).Some? && env.seedOf(Trim(mnemonic)).Some?
  {
    TrimIsTrimmed(author);
    TrimIsTrimmed(mnemonic);
    BlankAuthor(author);
    if SplitAuthor(Trim(author)).Some? {
      PathFacts(env, Trim(author));
    }
    hide Trim, PathText, ParsePath, Split, TrimSlashes, CryptoOk, PairOf;
  }

  lemma BlankAuthor(author: string)
    ensures Trim(author) == "" ==> SplitAuthor(author).None?
  {
    hide Trim;
  }

  predicate IsStamp(env: Crypto, stamp: string) {
    env.isTime(stamp) && Trim(stamp) == stamp
  }

  // ---------- Plain identities ----------

  lemma PlainIsValid(env: Crypto, agentId: string, author: string, seed: string, stamp: string)
    requires CryptoOk(env) && LowerHex(seed, 32) && IsStamp(env, stamp) && Trim(agentId) != ""
    ensures NewPlain(env, agentId, author, seed, stamp).Some?
    ensures var id := NewPlain(env, agentId, author, seed, stamp).value;
            && ValidPrivate(env, id) && KeyIsGenuine(env, id) && IsKey(id.privateKey, 64)
            && !id.hd && !NeedsDelegation(id) && id.author == Trim(author)
  {
    PairIsProper(env, seed);
    ProperPairReads(env, PairOf(env, seed));
    TrimIsTrimmed(agentId);
    ConstantsAreTrimmed();
    hide Trim, Norm, CryptoOk, PairOf, LowerHex, IsKey;
  }

  lemma PlainResolves(env: Crypto, id: AgentIdentity, author: string, ext: Extensions)
    requires ValidPrivate(env, id) && !id.hd && !NeedsDelegation(id)
    ensures Resolve(env, id, author, ext).Some? <==> id.author == "" || id.author == Trim(author)
    ensures Resolve(env, id, author, ext).Some? ==> Resolve(env, id, author, ext).value.id == id
  {
    hide Trim, Norm, ValidPrivate, WithSignedKeys;
  }

  /** A plain identity signs for its own author only (any author, if it names none), and whatever non-blank author it signs
      for validates. */
  lemma PlainIdentitySigns(env: Env, agentId: string, author: string, seed: string, stamp: string, msg: Message)
    requires CryptoOk(env.crypto) && LowerHex(seed, 32) && IsStamp(env.crypto, stamp) && Trim(agentId) != ""
    requires NoReservedText(msg.extensions)
    ensures var id := NewPlain(env.crypto, agentId, author, seed, stamp).value;
            var signed := SignMessage(env.crypto, msg, id);
            && (signed.Some? <==> Trim(author) == "" || Trim(author) == Trim(msg.author))
            && (signed.Some? ==> (ValidOrigin(env, signed.value) <==> Trim(msg.author) != ""))
  {
    hide Trim, Norm, CryptoOk, ValidOrigin, ValidPrivate, NoReservedText, NewPlain, IsStamp, SignMessage, Resolve, IsKey,
         KeyIsGenuine, LowerHex;
    PlainIsValid(env.crypto, agentId, author, seed, stamp);
    var id := NewPlain(env.crypto, agentId, author, seed, stamp).value;
    PlainResolves(env.crypto, id, msg.author, msg.extensions);
    SignsWhenResolved(env.crypto, msg, id);
    if SignMessage(env.crypto, msg, id).Some? {
      SignedMessageValidates(env, msg, id);
    }
  }

  // ---------- When a mnemonic signs ----------

  lemma MnemonicSigningKey(env: Crypto, id: AgentIdentity)
    requires CryptoOk(env) && Valid(env, id) && id.hd && Trim(id.mnemonic) != "" && Trim(id.publicKey) != ""
    ensures DeriveKeys(env, id.mnemonic, id.path).Some?
    ensures var pair := DeriveKeys(env, id.mnemonic, id.path).value;
            && ProperPair(env, pair)
            && Norm(id.publicKey) == pair.public
            && SigningKey(env, id) == Some(pair.private)
  {
    DerivedPairIsProper(env, id.mnemonic, id.path);
    var pair := DeriveKeys(env, id.mnemonic, id.path).value;
    HexIsNormal(pair.private, 64);
    HexIsNormal(pair.public, 32);
    NormBlank(id.privateKey);
    NormBlank(id.publicKey);
    hide Trim, Norm, DeriveKeys, CryptoOk;
  }

  lemma ChildDelegationMade(env: Crypto, id: AgentIdentity, child: AgentIdentity, stamp: string)
    requires CryptoOk(env) && Valid(env, id) && id.hd && Trim(id.mnemonic) != "" && Trim(id.publicKey) != ""
    requires IsKey(child.publicKey, 32) && IsStamp(env, stamp)
    ensures ChildDelegation(env, id, child, stamp).Some?
  {
    MnemonicSigningKey(env, id);
    var pair := DeriveKeys(env, id.mnemonic, id.path).value;
    var terms := Terms(KIND, VERSION, Trim(id.agentId), ED25519, Norm(id.publicKey),
                       Trim(child.agentId), ED25519, Norm(child.publicKey), ["publish:any"], stamp, "");
    var t := NormalizeTerms(terms);
    NormalizeIdempotent(terms);
    HexIsNormal(pair.public, 32);
    assert IsKey(id.publicKey, 32);
    KeyIsNormal(id.publicKey, 32);
    KeyIsNormal(child.publicKey, 32);
    ConstantsAreTrimmed();
    hide Trim, Norm, DeriveKeys, CryptoOk, SigningKey, UniqueScopes, IsKey, Valid;
    assert t.parentKey == Norm(id.publicKey) && t.childKey == Norm(child.publicKey) && t.createdAt == stamp;
    assert t.expiresAt == "" && t.kind == KIND && t.version == VERSION;
    var d := Delegation(t, Sign(pair.private, t));
    assert Verifies(env, t.parentKey, t, d.signature);
    assert ValidDelegation(env, d);
  }

  lemma DerivedAtAuthor(env: Crypto, id: AgentIdentity, author: string)
    requires CryptoOk(env) && Valid(env, id) && id.hd && Trim(id.mnemonic) != "" && RootOf(author).Some?
    ensures PathOf(env.mac, author).Some? && DeriveKeys(env, id.mnemonic, PathOf(env.mac, author).value).Some?
    ensures ProperPair(env, DerivedPair(env, id, author))
    ensures ChildKey(env, id, author) == Some(DerivedPair(env, id, author).public)
  {
    PathFacts(env, author);
    DerivedPairIsProper(env, id.mnemonic, PathOf(env.mac, author).value);
    hide Trim, PathText, ParsePath, SplitAuthor, CryptoOk;
  }

  lemma FinishBare(env: Crypto, w: Extensions, id: AgentIdentity)
    requires id.delegation.None?
    ensures Finish(env, w, id).Some? <==> !NeedsDelegation(id)
    ensures Finish(env, w, id).Some? ==> Finish(env, w, id).value.id == id
  {
    hide Trim, Norm;
  }

  lemma FinishWithProof(env: Crypto, w: Extensions, id: AgentIdentity)
    requires id.delegation.Some? && ValidDelegation(env, id.delegation.value)
    ensures Finish(env, w, id).Some? && Finish(env, w, id).value.id == id
  {
    hide Trim, Norm, ValidDelegation, NormalizeDelegation;
  }

  /** Resolving the root's own name. */
  lemma RootResolves(env: Crypto, id: AgentIdentity, ext: Extensions)
    requires CryptoOk(env) && Valid(env, id) && id.hd && Trim(id.mnemonic) != "" && Trim(id.publicKey) != ""
    requires RootOf(id.author) == Some(Trim(id.author))
    ensures ResolveDerived(env, id, id.author, ext).Some? <==> ChildKey(env, id, id.author) == Some(Norm(id.publicKey))
    ensures ResolveDerived(env, id, id.author, ext).Some? ==>
              ResolveDerived(env, id, id.author, ext).value.id == ChildSigner(env, id, id.author)
  {
    DerivedAtAuthor(env, id, id.author);
    RootIsNotBlank(id.author);
    var pair := DerivedPair(env, id, id.author);
    ProperPairReads(env, pair);
    ResolveDerivedIs(env, id, id.author, ext);
    FinishBare(env, WithSignedKeys(ext, pair.public, id.publicKey), ChildSigner(env, id, id.author));
    hide Trim, Norm, WithSignedKeys, DeriveKeys, PathOf, RootOf, CryptoOk, Valid, ChildKey, ResolveDerived, Finish, ProperPair,
         DerivedPair, DerivedPath, ChildWithProof, ChildKeys;
  }

  lemma ChildResolves(env: Crypto, id: AgentIdentity, author: string, ext: Extensions)
    requires CryptoOk(env) && Valid(env, id) && id.hd && Trim(id.mnemonic) != "" && Trim(id.publicKey) != ""
    requires RootOf(author) == Some(Trim(id.author)) && author != id.author
    ensures ResolveDerived(env, id, author, ext).Some?
    ensures ResolveDerived(env, id, author, ext).value.id == ChildWithProof(env, id, author)
  {
    DerivedAtAuthor(env, id, author);
    var pair := DerivedPair(env, id, author);
    ProperPairReads(env, pair);
    var signer, stamp := ChildSigner(env, id, author), ChildStamp(env, id);
    ResolveDerivedIs(env, id, author, ext);
    ChildDelegationMade(env, id, signer, stamp);
    ChildDelegationFacts(env, id, signer, stamp);
    FinishWithProof(env, ChildKeys(env, id, author, ext), ChildWithProof(env, id, author));
    hide Trim, Norm, DeriveKeys, PathOf, RootOf, CryptoOk, Valid, ChildKey, ChildDelegation, ResolveDerived,
         ValidDelegation, NormalizeDelegation, Finish, ProperPair, ChildKeys, DerivedPair;
  }

  /** A mnemonic identity with its public key set signs exactly for the authors under its root; for its own name only if
      its key is the one at that name's path. */
  lemma MnemonicSignsWhen(env: Crypto, msg: Message, id: AgentIdentity)
    requires CryptoOk(env) && id.hd && Trim(id.mnemonic) != "" && Trim(id.publicKey) != ""
    ensures SignMessage(env, msg, id).Some? <==>
              && Valid(env, id)
              && RootOf(Trim(msg.author)) == Some(Trim(id.author))
              && (Trim(msg.author) == id.author ==> ChildKey(env, id, id.author) == Some(Norm(id.publicKey)))
  {
    var author := Trim(msg.author);
    ResolveOfMnemonic(env, id, msg.author, msg.extensions);
    SignsWhenResolved(env, msg, id);
    ResolveDerivedIs(env, id, author, msg.extensions);
    if Valid(env, id) && RootOf(author) == Some(Trim(id.author)) {
      DerivedAtAuthor(env, id, author);
      ProperPairReads(env, DerivedPair(env, id, author));
      if author == id.author {
        RootResolves(env, id, msg.extensions);
      } else {
        ChildResolves(env, id, author, msg.extensions);
      }
    }
    hide Trim, Norm, Finish, RootOf, PathOf, CryptoOk, Valid, ChildKey, ResolveDerived, Resolve, SignMessage, IsKey,
         DerivedPair, DerivedPath, ChildDelegation, ChildKeys, WithSignedKeys, DeriveKeys, ProperPair;
  }

  // ---------- HD masters ----------

  /** Two paths of one seed do not give the same key unless they are the same path. */
  predicate Apart(env: Crypto, seed: string, p: seq<nat>, q: seq<nat>) {
    env.publicOf(env.derive(seed, p)) == env.publicOf(env.derive(seed, q)) ==> p == q
  }

  lemma MasterIsValid(env: Crypto, agentId: string, author: string, mnemonic: string, stamp: string)
    requires CryptoOk(env) && IsStamp(env, stamp) && NewMaster(env, agentId, author, mnemonic, stamp).Some?
    ensures var id := NewMaster(env, agentId, author, mnemonic, stamp).value;
            && Valid(env, id) && Trim(id.publicKey) != ""
            && Trim(id.author) == id.author == Trim(author) && Trim(id.mnemonic) == Trim(mnemonic) != ""
            && PathOf(env.mac, id.author).Some?
            && DeriveKeys(env, id.mnemonic, PathOf(env.mac, id.author).value).Some?
            && Norm(id.publicKey) == DeriveKeys(env, id.mnemonic, PathOf(env.mac, id.author).value).value.public
            && id.hd && env.seedOf(Trim(mnemonic)).Some? && ChildKey(env, id, id.author) == Some(Norm(id.publicKey))
  {
    var id := NewMaster(env, agentId, author, mnemonic, stamp).value;
    TrimIsTrimmed(agentId);
    TrimIsTrimmed(author);
    TrimIsTrimmed(mnemonic);
    ConstantsAreTrimmed();
    PathFacts(env, Trim(author));
    DerivedPairIsProper(env, Trim(mnemonic), id.path);
    ProperPairReads(env, DeriveKeys(env, Trim(mnemonic), id.path).value);
    NormBlank("");
    hide Trim, Norm, CryptoOk, ParsePath, PathOf, IsKey, ProperPair;
    assert DeriveKeys(env, id.mnemonic, id.path) == DeriveKeys(env, Trim(mnemonic), id.path);
    hide DeriveKeys;
  }

  function AuthorIndexes(env: Crypto, author: string): seq<nat> {
    if SplitAuthor(author).Some? then Hardened([0] + ChildIndexes(env.mac, SplitAuthor(author).value.segments)) else []
  }

  lemma KeyAt(env: Crypto, id: AgentIdentity, author: string)
    requires CryptoOk(env) && Trim(id.mnemonic) != "" && env.seedOf(Trim(id.mnemonic)).Some? && SplitAuthor(author).Some?
    ensures ChildKey(env, id, author)
         == Some(env.publicOf(env.derive(env.seedOf(Trim(id.mnemonic)).value, AuthorIndexes(env, author))))
  {
    AuthorPathRoundTrip(env.mac, author);
    hide Trim, SplitAuthor, ParsePath, PathText, ChildIndexes, Hardened;
  }

  /** The keys of two authors under one seed agree exactly when their segment indexes do. */
  lemma KeysSeparateAuthors(env: Crypto, id: AgentIdentity, a: string, b: string)
    requires CryptoOk(env) && Trim(id.mnemonic) != "" && env.seedOf(Trim(id.mnemonic)).Some?
    requires SplitAuthor(a).Some? && SplitAuthor(b).Some?
    requires Apart(env, env.seedOf(Trim(id.mnemonic)).value, AuthorIndexes(env, a), AuthorIndexes(env, b))
    ensures ChildKey(env, id, a).Some? && ChildKey(env, id, b).Some?
    ensures ChildKey(env, id, a) == ChildKey(env, id, b) <==>
              ChildIndexes(env.mac, SplitAuthor(a).value.segments) == ChildIndexes(env.mac, SplitAuthor(b).value.segments)
  {
    KeyAt(env, id, a);
    KeyAt(env, id, b);
    HardenedInjective(ChildIndexes(env.mac, SplitAuthor(a).value.segments),
                      ChildIndexes(env.mac, SplitAuthor(b).value.segments));
    hide CryptoOk, Trim, SplitAuthor, ChildKey, ChildIndexes, Hardened;
  }

  lemma HardenedInjective(x: seq<nat>, y: seq<nat>)
    ensures Hardened([0] + x) == Hardened([0] + y) <==> x == y
  {
    if Hardened([0] + x) == Hardened([0] + y) {
      var h := Hardened([0] + x);
      assert |x| == |h| - 1 == |y|;
      forall k | 0 <= k < |x| ensures x[k] == y[k] {
        assert h[k + 1] == ([0] + x)[k + 1] + HARDENED == ([0] + y)[k + 1] + HARDENED;
      }
    }
  }

  /** A master made for a root author signs for exactly the authors under it, and the message validates exactly when the
      author is the root itself or has another key. */
  lemma MasterSignsByKey(env: Env, agentId: string, root: string, mnemonic: string, stamp: string, msg: Message)
    requires CryptoOk(env.crypto) && IsStamp(env.crypto, stamp) && NoReservedText(msg.extensions)
    requires NewMaster(env.crypto, agentId, root, mnemonic, stamp).Some? && RootOf(root) == Some(Trim(root))
    ensures var id := NewMaster(env.crypto, agentId, root, mnemonic, stamp).value;
            var author := Trim(msg.author);
            var signed := SignMessage(env.crypto, msg, id);
            && (signed.Some? <==> RootOf(author) == Some(id.author))
            && (signed.Some? ==>
                  (ValidOrigin(env, signed.value) <==>
                     author == id.author || ChildKey(env.crypto, id, author) != ChildKey(env.crypto, id, id.author)))
  {
    hide Trim, Norm, PathOf, CryptoOk, Valid, ChildKey, SignMessage, DeriveKeys, NewMaster, SplitAuthor, ValidOrigin,
         NoReservedText, IsStamp;
    var id := NewMaster(env.crypto, agentId, root, mnemonic, stamp).value;
    MasterIsValid(env.crypto, agentId, root, mnemonic, stamp);
    RootHasNoSegments(root);
    TrimIsTrimmed(msg.author);
    TrimIsTrimmed(root);
    MnemonicSignsWhen(env.crypto, msg, id);
    assert RootOf(id.author) == Some(id.author);
    if SignMessage(env.crypto, msg, id).Some? {
      SignedMessageValidates(env, msg, id);
    }
  }

  /** Unless the two keys collide: the message validates exactly when the author is the root or has a path segment. */
  lemma MasterSigns(env: Env, agentId: string, root: string, mnemonic: string, stamp: string, msg: Message)
    requires CryptoOk(env.crypto) && IsStamp(env.crypto, stamp) && NoReservedText(msg.extensions)
    requires NewMaster(env.crypto, agentId, root, mnemonic, stamp).Some? && RootOf(root) == Some(Trim(root))
    requires env.crypto.seedOf(Trim(mnemonic)).Some? ==>
               Apart(env.crypto, env.crypto.seedOf(Trim(mnemonic)).value,
                     AuthorIndexes(env.crypto, Trim(msg.author)), AuthorIndexes(env.crypto, Trim(root)))
    ensures var id := NewMaster(env.crypto, agentId, root, mnemonic, stamp).value;
            var author := Trim(msg.author);
            var signed := SignMessage(env.crypto, msg, id);
            && (signed.Some? <==> RootOf(author) == Some(id.author))
            && (signed.Some? ==>
                  (ValidOrigin(env, signed.value) <==> author == id.author || SplitAuthor(author).value.segments != []))
  {
    hide Trim, Norm, PathOf, CryptoOk, Valid, ChildKey, SignMessage, DeriveKeys, NewMaster, SplitAuthor, ValidOrigin,
         NoReservedText, IsStamp, Apart, AuthorIndexes;
    var id := NewMaster(env.crypto, agentId, root, mnemonic, stamp).value;
    var author := Trim(msg.author);
    MasterSignsByKey(env, agentId, root, mnemonic, stamp, msg);
    MasterIsValid(env.crypto, agentId, root, mnemonic, stamp);
    RootHasNoSegments(root);
    assert SplitAuthor(id.author) == Some(AuthorPath(id.author, []));
    if RootOf(author) == Some(id.author) {
      KeysSeparateAuthors(env.crypto, id, author, id.author);
    }
  }

  /** A master made for an author that is not a root signs nothing at all. */
  lemma NonRootMasterSignsNothing(env: Env, agentId: string, author: string, mnemonic: string, stamp: string, msg: Message)
    requires CryptoOk(env.crypto) && IsStamp(env.crypto, stamp)
    requires NewMaster(env.crypto, agentId, author, mnemonic, stamp).Some? && RootOf(author) != Some(Trim(author))
    ensures SignMessage(env.crypto, msg, NewMaster(env.crypto, agentId, author, mnemonic, stamp).value).None?
  {
    var id := NewMaster(env.crypto, agentId, author, mnemonic, stamp).value;
    MasterIsValid(env.crypto, agentId, author, mnemonic, stamp);
    MnemonicSignsWhen(env.crypto, msg, id);
    TrimIsTrimmed(author);
    RootIgnoresSpace(author);
    if RootOf(Trim(msg.author)) == Some(id.author) {
      RootHasNoSegments(Trim(msg.author));
    }
    hide Trim, Norm, PathOf, CryptoOk, Valid, ChildKey, SignMessage, DeriveKeys, NewMaster, SplitAuthor, IsStamp;
  }

  lemma RootIgnoresSpace(author: string)
    ensures RootOf(Trim(author)) == RootOf(author)
  {
    TrimIsTrimmed(author);
    hide Trim;
  }

  /** The case the condition shuts out, on a concrete author: under "agent://a", signing for "agent://a/" succeeds and does
      not validate. */
  lemma TrailingSlashFails(env: Env, agentId: string, mnemonic: string, stamp: string, msg: Message)
    requires CryptoOk(env.crypto) && IsStamp(env.crypto, stamp) && NoReservedText(msg.extensions)
    requires NewMaster(env.crypto, agentId, "agent://a", mnemonic, stamp).Some?
    requires msg.author == "agent://a/"
    ensures var signed := SignMessage(env.crypto, msg, NewMaster(env.crypto, agentId, "agent://a", mnemonic, stamp).value);
            signed.Some? && !ValidOrigin(env, signed.value)
  {
    var id := NewMaster(env.crypto, agentId, "agent://a", mnemonic, stamp).value;
    SlashAuthors();
    MasterIsValid(env.crypto, agentId, "agent://a", mnemonic, stamp);
    MasterSignsByKey(env, agentId, "agent://a", mnemonic, stamp, msg);
    SameSegmentsSameKey(env.crypto, id, "agent://a/", "agent://a");
    hide Trim, Norm, PathOf, CryptoOk, Valid, ChildKey, SignMessage, DeriveKeys, NewMaster, SplitAuthor, ValidOrigin,
         NoReservedText, IsStamp;
    assert "agent://a/" != "agent://a";
  }

  lemma SameSegmentsSameKey(env: Crypto, id: AgentIdentity, a: string, b: string)
    requires SplitAuthor(a).Some? && SplitAuthor(b).Some? && SplitAuthor(a).value.segments == SplitAuthor(b).value.segments
    ensures ChildKey(env, id, a) == ChildKey(env, id, b)
  {
    hide Trim, SplitAuthor, DeriveKeys, PathText;
  }

  lemma SlashAuthors()
    ensures Trim("agent://a") == "agent://a" && Trim("agent://a/") == "agent://a/"
    ensures SplitAuthor("agent://a") == Some(AuthorPath("agent://a", []))
    ensures SplitAuthor("agent://a/") == Some(AuthorPath("agent://a", []))
  {
    var s := "agent://a/";
    assert SpaceAt("agent://a") == 0 && SpaceBefore("agent://a") == 0;
    assert SpaceAt(s) == 0 && SpaceBefore(s) == 0;
    assert s[|SCHEME|..] == "a/" && "agent://a"[|SCHEME|..] == "a";
    assert "a/"[..1] == "a";
    assert DropTrailing("a/", '/') == DropTrailing("a", '/') == "a";
    SplitPlain("a", '/');
    assert SpaceAt("a") == 0 && SpaceBefore("a") == 0;
    assert ["a"][1..] == [];
    assert SCHEME + "a" == "agent://a";
  }

  /** A child identity can be derived exactly from a valid HD identity with a mnemonic and a public key, for an author under its
      own root. */
  lemma ChildIsMadeExactly(env: Crypto, id: AgentIdentity, author: string, stamp: string)
    requires CryptoOk(env) && IsStamp(env, stamp)
    ensures DeriveChild(env, id, author, stamp).Some? <==>
              && Valid(env, id) && id.hd && Trim(id.mnemonic) != "" && Trim(id.publicKey) != ""
              && RootOf(author) == Some(Trim(id.author))
  {
    hide Trim, Norm, CryptoOk, PathOf, RootOf, Valid, IsStamp, DeriveKeys, ChildDelegation, IsKey;
    if Valid(env, id) && id.hd && Trim(id.mnemonic) != "" && RootOf(author) == Some(Trim(id.author)) {
      DerivedAtAuthor(env, id, author);
      var path := PathOf(env.mac, author).value;
      var pair := DeriveKeys(env, id.mnemonic, path).value;
      var child := AgentIdentity(id.agentId, Trim(author), ED25519, pair.public, pair.private, stamp,
                                 true, "", id.masterKey, path, id.author, id.publicKey, None);
      ProperPairReads(env, pair);
      if Trim(id.publicKey) != "" {
        ChildDelegationMade(env, id, child, stamp);
      } else {
        NoParentKey(env, id, child, stamp);
      }
    }
  }

  lemma NoParentKey(env: Crypto, parent: AgentIdentity, child: AgentIdentity, stamp: string)
    requires Trim(parent.publicKey) == ""
    ensures ChildDelegation(env, parent, child, stamp).None?
  {
    NormBlank(parent.publicKey);
    BlankTrims();
    hide Trim, SigningKey, UniqueScopes;
    assert Norm("") == "" by { NormIdempotent(parent.publicKey); }
    assert !IsKey("", 32);
  }

  // ---------- Derived children ----------

  /** A child identity file signs for its own author, and the message validates exactly when the author lies below the root
      and the child's key differs from the root's. */
  lemma ChildSigns(env: Env, id: AgentIdentity, author: string, stamp: string, msg: Message)
    requires CryptoOk(env.crypto) && IsStamp(env.crypto, stamp) && NoReservedText(msg.extensions)
    requires DeriveChild(env.crypto, id, author, stamp).Some?
    ensures var child := DeriveChild(env.crypto, id, author, stamp).value;
            var signed := SignMessage(env.crypto, msg, child);
            && (signed.Some? <==> Trim(msg.author) == Trim(author))
            && (signed.Some? ==>
                  (ValidOrigin(env, signed.value) <==>
                     RootOf(author) != Some(Trim(author)) && ChildKey(env.crypto, id, author) != Some(Norm(id.publicKey))))
  {
    hide Trim, Norm, CryptoOk, PathOf, RootOf, ChildKey, SignMessage, Resolve, DeriveChild, ValidPrivate, ValidOrigin, IsKey,
         KeyIsGenuine, NoReservedText, IsStamp;
    var child := DeriveChild(env.crypto, id, author, stamp).value;
    ChildFile(env.crypto, id, author, stamp);
    KeyFileResolves(env.crypto, child, msg.author, msg.extensions);
    SignsWhenResolved(env.crypto, msg, child);
    if SignMessage(env.crypto, msg, child).Some? {
      SignedMessageValidates(env, msg, child);
    }
    RootIgnoresSpace(author);
    PathIgnoresSpace(env.crypto, author);
    RootIsNotBlank(author);
    BlankTrims();
  }

  lemma PathIgnoresSpace(env: Crypto, author: string)
    ensures PathOf(env.mac, Trim(author)) == PathOf(env.mac, author)
  {
    TrimIsTrimmed(author);
    hide Trim, PathText;
  }

  /** What DeriveChildIdentity returns is a valid key file under its root. */
  lemma ChildFile(env: Crypto, id: AgentIdentity, author: string, stamp: string)
    requires CryptoOk(env) && IsStamp(env, stamp) && DeriveChild(env, id, author, stamp).Some?
    ensures var child := DeriveChild(env, id, author, stamp).value;
            && ValidPrivate(env, child) && KeyIsGenuine(env, child)
            && child.hd && Trim(child.mnemonic) == "" && child.author == Trim(author) != ""
            && child.parent == id.author && child.parentKey == id.publicKey && Norm(id.publicKey) != ""
            && PathOf(env.mac, author) == Some(child.path) && Trim(child.path) == child.path
            && ChildKey(env, id, author) == Some(Norm(child.publicKey))
            && RootOf(author) == Some(Trim(id.author)) && Trim(id.author) != ""
            && child.delegation.Some? && ValidDelegation(env, child.delegation.value)
            && IsKey(child.privateKey, 64)
  {
    var child := DeriveChild(env, id, author, stamp).value;
    var bare := child.(delegation := None);
    var path := PathOf(env.mac, author).value;
    DerivedPairIsProper(env, id.mnemonic, path);
    ProperPairReads(env, DeriveKeys(env, id.mnemonic, path).value);
    ChildDelegationFacts(env, id, bare, stamp);
    KeyIsNormal(id.publicKey, 32);
    PathFacts(env, author);
    RootIsNotBlank(author);
    TrimIsTrimmed(author);
    ConstantsAreTrimmed();
    hide Trim, Norm, CryptoOk, PathOf, RootOf, DeriveKeys, ChildDelegation, ValidDelegation, ParsePath, IsKey, NormalizeDelegation;
  }

  lemma KeyFileResolves(env: Crypto, id: AgentIdentity, author: string, ext: Extensions)
    requires ValidPrivate(env, id) && id.hd && Trim(id.mnemonic) == "" && id.author != ""
    requires id.delegation.Some? && ValidDelegation(env, id.delegation.value)
    ensures Resolve(env, id, author, ext).Some? <==> id.author == Trim(author)
    ensures Resolve(env, id, author, ext).Some? ==> Resolve(env, id, author, ext).value.id == id
  {
    hide Trim, Norm, ValidPrivate, ValidDelegation, NormalizeDelegation, WithSignedKeys;
  }

  // ---------- Root and child sign alike ----------

  lemma StampIsTime(env: Crypto, id: AgentIdentity)
    requires CryptoOk(env) && Valid(env, id)
    ensures IsStamp(env, ChildStamp(env, id))
  {
    hide Trim, Norm, ParsePath;
  }

  lemma SameDelegation(env: Crypto, id: AgentIdentity, author: string)
    requires DeriveChild(env, id, author, ChildStamp(env, id)).Some?
    ensures var child := DeriveChild(env, id, author, ChildStamp(env, id)).value;
            var signer := ChildWithProof(env, id, Trim(author));
            && child.agentId == signer.agentId && child.publicKey == signer.publicKey
            && child.privateKey == signer.privateKey && child.path == DerivedPath(env, Trim(author))
            && child.delegation == signer.delegation
            && child.publicKey == DerivedPair(env, id, Trim(author)).public
  {
    PathIgnoresSpace(env, author);
    hide Trim, Norm, PathOf, RootOf, DeriveKeys, Valid, SignDelegation;
  }

  lemma FileHdOfChild(ext: Extensions, child: AgentIdentity)
    requires child.parent != "" && Trim(child.parentKey) != ""
    ensures FileHd(ext, child) == WithHdOrigin(ext, child.parent, child.parentKey, child.path)
    ensures FileParentKey(child) == child.parentKey
  {
    BlankTrims();
    hide Trim;
  }

  lemma FileProofOfChild(child: AgentIdentity, d: Delegation)
    requires child.delegation == Some(d) && NormalizeDelegation(d) == d
    ensures FileProof(child) == if NeedsDelegation(child) then Some(d) else None
  {
    hide Trim, Norm, NormalizeDelegation;
  }

  lemma ChildExtensions(env: Crypto, id: AgentIdentity, author: string, ext: Extensions)
    requires CryptoOk(env) && DeriveChild(env, id, author, ChildStamp(env, id)).Some? && Trim(author) != id.author
    requires IsStamp(env, ChildStamp(env, id))
    ensures var child := DeriveChild(env, id, author, ChildStamp(env, id)).value;
            && WithSignedKeys(FileHd(ext, child), child.publicKey, FileParentKey(child)) == ChildKeys(env, id, Trim(author), ext)
            && FileProof(child) == (if NeedsDelegation(ChildSigner(env, id, Trim(author))) then child.delegation else None)
  {
    hide Trim, Norm, PathOf, RootOf, DeriveKeys, Valid, ValidPrivate, ChildDelegation, ValidDelegation, NormalizeDelegation,
         WithSignedKeys, DeriveChild, CryptoOk, WithHdOrigin, ChildKey, DerivedPair, DerivedPath, IsStamp, FileHd,
         FileParentKey, FileProof, NeedsDelegation, KeyIsGenuine;
    var child := DeriveChild(env, id, author, ChildStamp(env, id)).value;
    var signer := ChildSigner(env, id, Trim(author));
    ChildFile(env, id, author, ChildStamp(env, id));
    SameDelegation(env, id, author);
    BlankTrims();
    NormBlank(id.publicKey);
    ChildDelegationFacts(env, id, signer, ChildStamp(env, id));
    FileHdOfChild(ext, child);
    FileProofOfChild(child, child.delegation.value);
    NeedsAlike(child, signer);
  }

  lemma NeedsAlike(a: AgentIdentity, b: AgentIdentity)
    requires a.parent == b.parent && a.parentKey == b.parentKey && a.publicKey == b.publicKey
    ensures NeedsDelegation(a) == NeedsDelegation(b)
  {}

  /** The root's own file and the child file derived from it at the same creation time produce the very same signed message
      for the child's author, signature included. */
  lemma RootAndChildSignAlike(env: Crypto, id: AgentIdentity, author: string, msg: Message)
    requires CryptoOk(env) && DeriveChild(env, id, author, ChildStamp(env, id)).Some?
    requires Trim(author) != id.author && Trim(msg.author) == Trim(author)
    ensures SignMessage(env, msg, id).Some?
    ensures SignMessage(env, msg, id) == SignMessage(env, msg, DeriveChild(env, id, author, ChildStamp(env, id)).value)
  {
    hide Trim, Norm, PathOf, RootOf, DeriveKeys, Valid, ValidPrivate, ChildDelegation, ValidDelegation, NormalizeDelegation,
         WithSignedKeys, DeriveChild, CryptoOk, WithHdOrigin, ChildKey, DerivedPair, DerivedPath, Resolve, ResolveDerived,
         ResolveKeyFile, ChildKeys, FileHd, FileProof, FileParentKey, WithProof, IsStamp, KeyIsGenuine, SignMessage, IsKey;
    var child := DeriveChild(env, id, author, ChildStamp(env, id)).value;
    DerivesFromRoot(env, id, author, ChildStamp(env, id));
    StampIsTime(env, id);
    ChildFile(env, id, author, ChildStamp(env, id));
    NormBlank(id.publicKey);
    RootIgnoresSpace(author);
    MnemonicSignsWhen(env, msg, id);
    ResolveOfMnemonic(env, id, msg.author, msg.extensions);
    SignsWhenResolved(env, msg, id);
    ChildResolved(env, id, Trim(author), msg.extensions);
    BlankTrims();
    KeyFileResolves(env, child, msg.author, msg.extensions);
    ResolveOfFile(env, child, msg.author, msg.extensions);
    SignsWhenResolved(env, msg, child);
    FileResolved(env, child, Trim(author), msg.extensions);
    SameDelegation(env, id, author);
    ChildExtensions(env, id, author, msg.extensions);
    SameSignerSameMessage(env, msg, id, child);
  }

  lemma DerivesFromRoot(env: Crypto, id: AgentIdentity, author: string, stamp: string)
    requires DeriveChild(env, id, author, stamp).Some?
    ensures Valid(env, id) && id.hd && Trim(id.mnemonic) != ""
  {
    hide Trim, Valid, RootOf, PathOf, DeriveKeys, ChildDelegation;
  }

  /** The signed message depends on the resolved signer only through its names, its keys and the extensions. */
  lemma SameSignerSameMessage(env: Crypto, msg: Message, a: AgentIdentity, b: AgentIdentity)
    requires Resolve(env, a, msg.author, msg.extensions).Some? && Resolve(env, b, msg.author, msg.extensions).Some?
    requires var x, y := Resolve(env, a, msg.author, msg.extensions).value, Resolve(env, b, msg.author, msg.extensions).value;
             && x.id.agentId == y.id.agentId && x.id.publicKey == y.id.publicKey && x.id.privateKey == y.id.privateKey
             && x.extensions == y.extensions
    ensures SignMessage(env, msg, a) == SignMessage(env, msg, b)
  {
    hide Trim, Norm, Resolve, IsKey;
  }

  lemma ResolveOfFile(env: Crypto, id: AgentIdentity, author: string, ext: Extensions)
    requires ValidPrivate(env, id) && id.hd && Trim(id.mnemonic) == ""
    ensures Resolve(env, id, author, ext) == ResolveKeyFile(env, id, Trim(author), ext)
  {
    hide Trim, Norm, ValidPrivate, ResolveKeyFile;
  }

  /** A signature fits one content only: two valid messages with the same signature have the same signed fields, author,
      signer and extensions. */
  lemma SignatureBindsContent(env: Env, a: Message, b: Message)
    requires a.origin.Some? && b.origin.Some? && ValidOrigin(env, a) && ValidOrigin(env, b)
    requires a.origin.value.signature == b.origin.value.signature
    ensures a.fields == b.fields && Trim(a.author) == Trim(b.author) && a.extensions == b.extensions
    ensures Norm(a.origin.value.signer.key) == Norm(b.origin.value.signer.key)
    ensures Trim(a.origin.value.signer.agentId) == Trim(b.origin.value.signer.agentId)
  {
    hide Trim, Norm, IsKey, SignedKeysOk, HdOriginOk, DelegationOk;
  }

  // ---------- An instance ----------

  const ZEROS := seq(64, _ => '0')
  const ONES := seq(64, _ => '1')

  /** A cryptography in which a path of one index has another key than a longer one. */
  function SmallCrypto(): Crypto {
    Crypto(
      (segment: string) => Words(1, 1),
      (mnemonic: string) => Some(mnemonic),
      (seed: string, indexes: seq<nat>) => if |indexes| <= 1 then ZEROS else ONES,
      (seed: string) => if seed == ZEROS then ZEROS else ONES,
      (t: string) => t == "t",
      (t: string) => "t")
  }

  lemma SmallCryptoIsOk()
    ensures CryptoOk(SmallCrypto()) && IsStamp(SmallCrypto(), "t")
  {
    assert LowerHex(ZEROS, 32) && LowerHex(ONES, 32);
    TrimmedStays("t");
  }

  /** The premises can be met: a master for "agent://a" signs for "agent://a/b", and the message validates. */
  lemma SigningIsPossible(parse: string -> Option<Delegation>) returns (id: AgentIdentity, signed: Message)
    ensures Some(id) == NewMaster(SmallCrypto(), "n", "agent://a", "m", "t")
    ensures Some(signed) == SignMessage(SmallCrypto(), Message("", "agent://a/b", map[], None), id)
    ensures ValidOrigin(Env(SmallCrypto(), parse), signed)
  {
    hide Trim, SplitAuthor, NewMaster, SignMessage, ValidOrigin, CryptoOk, IsStamp, SmallCrypto, AuthorIndexes, Apart;
    var env := Env(SmallCrypto(), parse);
    var msg := Message("", "agent://a/b", map[], None);
    SmallCryptoIsOk();
    SlashAuthors();
    DeepAuthor();
    ShortTexts();
    MasterExists();
    id := NewMaster(SmallCrypto(), "n", "agent://a", "m", "t").value;
    MasterIsValid(SmallCrypto(), "n", "agent://a", "m", "t");
    PathsApart();
    MasterSigns(env, "n", "agent://a", "m", "t", msg);
    signed := SignMessage(SmallCrypto(), msg, id).value;
  }

  lemma ShortTexts()
    ensures Trim("m") == "m" && Trim("n") == "n" && Trim("t") == "t"
  {
    TrimmedStays("n");
    TrimmedStays("m");
    TrimmedStays("t");
  }

  lemma DeepAuthor()
    ensures Trim("agent://a/b") == "agent://a/b"
    ensures SplitAuthor("agent://a/b") == Some(AuthorPath("agent://a", ["b"]))
  {
    var s := "agent://a/b";
    TrimmedStays(s);
    assert s[|SCHEME|..] == "a/b";
    assert TrimSlashes("a/b") == "a/b";
    SplitPlain("a", '/');
    SplitPlain("b", '/');
    SplitAt("a", '/', "b");
    assert "a" + ['/'] + "b" == "a/b";
    assert Split("a/b", '/') == ["a", "b"];
    TrimmedStays("a");
    TrimmedStays("b");
    assert ["a", "b"][1..] == ["b"];
    assert Lower("b") == "b";
    assert NormalizeAll(["b"]) == [NormalizeSegment("b")] + NormalizeAll(["b"][1..]);
    assert SCHEME + "a" == "agent://a";
  }

  lemma MasterExists()
    ensures NewMaster(SmallCrypto(), "n", "agent://a", "m", "t").Some?
  {
    SlashAuthors();
    TrimmedStays("n");
    TrimmedStays("m");
    SmallCryptoIsOk();
    hide Trim, SplitAuthor, CryptoOk, ParsePath, PathText, IsStamp;
    PathFacts(SmallCrypto(), "agent://a");
  }

  lemma PathsApart()
    ensures Apart(SmallCrypto(), "m", AuthorIndexes(SmallCrypto(), "agent://a/b"), AuthorIndexes(SmallCrypto(), "agent://a"))
  {
    SlashAuthors();
    DeepAuthor();
    hide Trim, SplitAuthor;
    assert ZEROS[0] != ONES[0];
  }
}
