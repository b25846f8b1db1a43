/** When does a message signed by BuildSignedOrigin pass ValidateMessageOrigin? The exact condition for plain identities,
    HD roots with a mnemonic and key files, what it means for the identities the program makes itself, and the
    state-changing form of the signing code (internal/aip2p/identity.go). */
module IdentitySigning {
  import opened Delegations
  import opened HDPaths
  import opened Identity
  import opened Options
  import opened Text

  // ---------- The condition ----------

  /** The stored private key's seed generates its public half. */
  predicate KeyIsGenuine(env: Crypto, id: AgentIdentity) {
    IsKey(id.privateKey, 64) && env.publicOf(Norm(id.privateKey)[..64]) == Norm(id.publicKey)
  }

  function ChildKey(env: Crypto, id: AgentIdentity, author: string): Option<string> {
    if PathOf(env.mac, author).None? || DeriveKeys(env, id.mnemonic, PathOf(env.mac, author).value).None? then None
    else Some(DeriveKeys(env, id.mnemonic, PathOf(env.mac, author).value).value.public)
  }

  /** What the caller can check beforehand, for a trimmed author. */
  predicate Fits(env: Crypto, id: AgentIdentity, author: string) {
    if !id.hd then
      author != "" && KeyIsGenuine(env, id)
    else if Trim(id.mnemonic) != "" then
      if author == id.author then Trim(id.publicKey) != ""
      else author != Trim(id.author) && ChildKey(env, id, author) != Some(Norm(id.publicKey))
    else
      && KeyIsGenuine(env, id)
      && if id.parent == "" then
           Norm(id.parentKey) == "" || Norm(id.parentKey) == Norm(id.publicKey)
         else
           && Norm(id.parentKey) != "" && Norm(id.parentKey) != Norm(id.publicKey)
           && RootOf(author) == Some(Trim(id.parent))
           && Trim(id.parent) != author
           && PathOf(env.mac, author) == Some(Trim(id.path))
  }

  /** The caller's extensions hold no text under the keys that mark a derived author. */
  predicate NoReservedText(ext: Extensions) {
    && StringFrom(ext, HdParent).None? && StringFrom(ext, HdParentKey).None?
    && StringFrom(ext, HdPath).None? && StringFrom(ext, ParentKey).None?
  }

  // ---------- Small facts ----------

  lemma KeyIsNormal(raw: string, bytes: nat)
    requires IsKey(raw, bytes) && bytes > 0
    ensures Norm(Norm(raw)) == Norm(raw) && Trim(Norm(raw)) == Norm(raw) && Norm(raw) != ""
    ensures Norm(Trim(raw)) == Norm(raw) && Trim(raw) != ""
    ensures IsKey(Norm(raw), bytes) && IsKey(Trim(raw), bytes)
  {
    NormIdempotent(raw);
    NormBlank(raw);
    hide Trim, Norm;
  }

  lemma ParseTrimmed(path: string)
    ensures ParsePath(Trim(path)) == ParsePath(path)
  {
    TrimIsTrimmed(path);
    hide Trim, Split, ParseSegments;
  }

  lemma PathFacts(env: Crypto, author: string)
    requires CryptoOk(env) && PathOf(env.mac, author).Some?
    ensures var path := PathOf(env.mac, author).value;
            Trim(path) == path != "" && ParsePath(path).Some?
  {
    hide PathText, ParsePath, Trim, SplitAuthor;
    AuthorPathRoundTrip(env.mac, author);
  }

  // ---------- The signature ----------

  predicate MetadataOk(env: Env, ext: Extensions, author: string, key: string) {
    SignedKeysOk(ext, key) && HdOriginOk(env.crypto, author, ext) && DelegationOk(env, ext, key)
  }

  /** A signed message validates when its signer's key is genuine and its metadata passes. */
  lemma SignatureVerifies(env: Env, msg: Message, id: AgentIdentity)
    requires SignMessage(env.crypto, msg, id).Some?
    requires var r := Resolve(env.crypto, id, msg.author, msg.extensions).value;
             Trim(r.id.agentId) != "" && MatchingKeys(r.id.publicKey, r.id.privateKey)
    ensures var r := Resolve(env.crypto, id, msg.author, msg.extensions).value;
            ValidOrigin(env, SignMessage(env.crypto, msg, id).value) <==>
              && Trim(msg.author) != ""
              && KeyIsGenuine(env.crypto, r.id)
              && MetadataOk(env, r.extensions, Trim(msg.author), Norm(r.id.publicKey))
  {
    var r := Resolve(env.crypto, id, msg.author, msg.extensions).value;
    var signed := SignMessage(env.crypto, msg, id).value;
    var signer := signed.origin.value.signer;
    TrimIsTrimmed(msg.author);
    TrimIsTrimmed(r.id.agentId);
    KeyIsNormal(r.id.publicKey, 32);
    ConstantsAreTrimmed();
    hide Trim, Norm, Resolve, SignedKeysOk, HdOriginOk, DelegationOk;
    assert Signer(Trim(signer.author), Trim(signer.agentId), Trim(signer.keyType), Norm(signer.key)) == signer;
  }

  // ---------- Metadata ----------

  lemma SignedKeyStrings(ext: Extensions, originKey: string, parentKey: string)
    requires Norm(originKey) != "" && Norm(parentKey) != ""
    ensures var e := WithSignedKeys(ext, originKey, parentKey);
            && StringFrom(e, OriginKey) == Some(Norm(originKey))
            && StringFrom(e, ParentKey) == Some(Norm(parentKey))
            && (forall k :: k !in {OriginKey, ParentKey} ==> StringFrom(e, k) == StringFrom(ext, k))
  {
    NormIdempotent(originKey);
    NormIdempotent(parentKey);
    hide Trim, Norm;
  }

  /** Extensions after WithSignedKeys with both keys present. */
  lemma SignedKeysPass(ext: Extensions, originKey: string, parentKey: string)
    requires IsKey(originKey, 32) && IsKey(parentKey, 32)
    ensures var e := WithSignedKeys(ext, originKey, parentKey);
            && SignedKeysOk(e, Norm(originKey))
            && StringFrom(e, OriginKey) == Some(Norm(originKey))
            && StringFrom(e, ParentKey) == Some(Norm(parentKey))
            && (forall k :: k !in {OriginKey, ParentKey} ==> StringFrom(e, k) == StringFrom(ext, k))
  {
    KeyIsNormal(originKey, 32);
    KeyIsNormal(parentKey, 32);
    SignedKeyStrings(ext, originKey, parentKey);
    hide Trim, Norm, IsKey, WithSignedKeys, StringFrom;
  }

  lemma SignedKeysIgnoreProof(e: Extensions, e': Extensions, key: string)
    requires forall k :: k != HdDelegation ==> StringFrom(e, k) == StringFrom(e', k)
    ensures SignedKeysOk(e, key) == SignedKeysOk(e', key)
  {
    hide Trim, Norm, IsKey, StringFrom;
  }

  lemma DroppingProof(e: Extensions)
    ensures forall k :: k != HdDelegation ==> StringFrom(e - {HdDelegation}, k) == StringFrom(e, k)
  {
    hide Trim;
  }

  lemma AddingProof(e: Extensions, d: Delegation)
    ensures forall k :: k != HdDelegation ==> StringFrom(e[HdDelegation := Proof(d)], k) == StringFrom(e, k)
  {
    hide Trim;
  }

  /** No derived-author metadata and one key for origin and parent: nothing more is asked. */
  lemma OneKeyPasses(env: Env, e: Extensions, author: string, originKey: string, parentKey: string)
    requires IsKey(originKey, 32) && Norm(parentKey) == Norm(originKey)
    requires StringFrom(e, HdParent).None? && StringFrom(e, HdParentKey).None? && StringFrom(e, HdPath).None?
    ensures MetadataOk(env, WithSignedKeys(e, originKey, parentKey) - {HdDelegation}, author, Norm(originKey))
  {
    assert IsKey(parentKey, 32);
    var w := WithSignedKeys(e, originKey, parentKey);
    SignedKeysPass(e, originKey, parentKey);
    DroppingProof(w);
    SignedKeysIgnoreProof(w, w - {HdDelegation}, Norm(originKey));
    KeyIsNormal(originKey, 32);
    hide Trim, Norm, StringFrom, WithSignedKeys, IsKey, SignedKeysOk, RootOf, PathOf, ParsePath;
  }

  /** Two different keys without derived-author metadata are refused when no delegation is attached. */
  lemma TwoKeysNeedProof(env: Env, e: Extensions, author: string, originKey: string, parentKey: string)
    requires IsKey(originKey, 32) && Norm(parentKey) != "" && Norm(parentKey) != Norm(originKey)
    ensures !MetadataOk(env, WithSignedKeys(e, originKey, parentKey) - {HdDelegation}, author, Norm(originKey))
  {
    var w := WithSignedKeys(e, originKey, parentKey);
    DroppingProof(w);
    NormIdempotent(parentKey);
    KeyIsNormal(originKey, 32);
    hide Trim, Norm, IsKey, SignedKeysOk, HdOriginOk;
    assert StringFrom(w, ParentKey) == Some(Norm(parentKey));
    assert RequiresDelegation(w - {HdDelegation}, Norm(originKey));
  }

  function WithProof(e: Extensions, proof: Option<Delegation>): Extensions {
    match proof
    case Some(d) => e[HdDelegation := Proof(d)]
    case None => e - {HdDelegation}
  }

  lemma ProofStrings(e: Extensions, proof: Option<Delegation>)
    ensures forall k :: k != HdDelegation ==> StringFrom(WithProof(e, proof), k) == StringFrom(e, k)
  {
    if proof.Some? { AddingProof(e, proof.value); } else { DroppingProof(e); }
    hide StringFrom;
  }

  /** The derived-author part of the validation, from the texts it reads. */
  lemma DerivedChecks(env: Env, out: Extensions, author: string, parent: string, path: string, key: string)
    requires Trim(author) == author && Trim(parent) == parent && Trim(path) == path && IsKey(key, 32)
    requires StringFrom(out, HdParent) == if parent == "" then None else Some(parent)
    requires StringFrom(out, HdParentKey) == Some(key)
    requires StringFrom(out, HdPath) == Some(path)
    requires ParsePath(path).Some?
    ensures HdOriginOk(env.crypto, author, out) <==>
              && RootOf(author) == Some(parent)
              && parent != author
              && parent != ""
              && PathOf(env.crypto.mac, author) == Some(path)
  {
    hide Trim, IsKey, StringFrom, RootOf, PathOf, ParsePath;
  }

  lemma ProofChecks(env: Env, out: Extensions, originKey: string, parentKey: string, proof: Option<Delegation>)
    requires StringFrom(out, ParentKey) == Some(parentKey) && StringFrom(out, HdPath).Some?
    requires StringFrom(out, HdParentKey).Some? && Norm(StringFrom(out, HdParentKey).value) == parentKey
    requires Norm(parentKey) == parentKey && Norm(originKey) == originKey
    requires proof.Some? ==>
               && ValidDelegation(env.crypto, proof.value)
               && Norm(proof.value.terms.childKey) == originKey
               && Norm(proof.value.terms.parentKey) == parentKey
    requires proof.Some? ==> HdDelegation in out && out[HdDelegation] == Proof(proof.value)
    requires proof.None? ==> HdDelegation !in out
    ensures DelegationOk(env, out, originKey) <==> proof.Some?
  {
    hide Norm, StringFrom, ValidDelegation;
  }

  /** The metadata of a derived author passes exactly when the author lies below the parent, the path is the author's,
      and a delegation between the two keys is attached. */
  lemma DerivedMetadata(env: Env, e: Extensions, author: string, parent: string, path: string,
                        originKey: string, parentKey: string, proof: Option<Delegation>)
    requires IsKey(originKey, 32) && IsKey(parentKey, 32) && Trim(author) == author
    requires ParsePath(path).Some? && Trim(path) != ""
    requires proof.Some? ==>
               && ValidDelegation(env.crypto, proof.value)
               && Norm(proof.value.terms.childKey) == Norm(originKey)
               && Norm(proof.value.terms.parentKey) == Norm(parentKey)
    ensures MetadataOk(env, WithProof(WithSignedKeys(WithHdOrigin(e, parent, parentKey, path), originKey, parentKey), proof),
                       author, Norm(originKey)) <==>
              && proof.Some?
              && RootOf(author) == Some(Trim(parent))
              && Trim(parent) != author
              && Trim(parent) != ""
              && PathOf(env.crypto.mac, author) == Some(Trim(path))
  {
    var h := WithHdOrigin(e, parent, parentKey, path);
    var w := WithSignedKeys(h, originKey, parentKey);
    var out := WithProof(w, proof);
    SignedKeysPass(h, originKey, parentKey);
    ProofStrings(w, proof);
    SignedKeysIgnoreProof(w, out, Norm(originKey));
    KeyIsNormal(originKey, 32);
    KeyIsNormal(parentKey, 32);
    TrimIsTrimmed(parent);
    TrimIsTrimmed(path);
    ParseTrimmed(path);
    DerivedStrings(e, parent, parentKey, path);
    hide Trim, Norm, IsKey, SignedKeysOk, WithSignedKeys, WithHdOrigin, StringFrom, RootOf, PathOf, ParsePath,
         ValidDelegation, HdOriginOk, DelegationOk;
    DerivedChecks(env, out, author, Trim(parent), Trim(path), Trim(parentKey));
    ProofChecks(env, out, Norm(originKey), Norm(parentKey), proof);
  }

  lemma DerivedStrings(e: Extensions, parent: string, parentKey: string, path: string)
    ensures var h := WithHdOrigin(e, parent, parentKey, path);
            && StringFrom(h, HdParent) == (if Trim(parent) == "" then None else Some(Trim(parent)))
            && StringFrom(h, HdParentKey) == (if Trim(parentKey) == "" then None else Some(Trim(parentKey)))
            && StringFrom(h, HdPath) == (if Trim(path) == "" then None else Some(Trim(path)))
  {
    hide Trim;
  }

  // ---------- Plain identities ----------

  lemma PlainSigning(env: Env, msg: Message, id: AgentIdentity)
    requires !id.hd && NoReservedText(msg.extensions) && SignMessage(env.crypto, msg, id).Some?
    ensures ValidOrigin(env, SignMessage(env.crypto, msg, id).value) <==> Fits(env.crypto, id, Trim(msg.author))
  {
    var r := Resolve(env.crypto, id, msg.author, msg.extensions).value;
    var w := WithSignedKeys(msg.extensions, id.publicKey, id.publicKey);
    SignatureVerifies(env, msg, id);
    hide Trim, Norm, WithSignedKeys, ValidOrigin, SignMessage, NormalizeTerms, ValidDelegation;
    assert r.id == id;
    if NeedsDelegation(id) {
      PlainWithProof(env, msg.extensions, Trim(msg.author), id.publicKey, NormalizeDelegation(id.delegation.value));
    } else {
      OneKeyPasses(env, msg.extensions, Trim(msg.author), id.publicKey, id.publicKey);
    }
  }

  /** An attached delegation that nothing asks for is not looked at. */
  lemma PlainWithProof(env: Env, e: Extensions, author: string, key: string, d: Delegation)
    requires IsKey(key, 32)
    requires StringFrom(e, HdParent).None? && StringFrom(e, HdParentKey).None? && StringFrom(e, HdPath).None?
    ensures MetadataOk(env, WithSignedKeys(e, key, key)[HdDelegation := Proof(d)], author, Norm(key))
  {
    var w := WithSignedKeys(e, key, key);
    SignedKeysPass(e, key, key);
    AddingProof(w, d);
    SignedKeysIgnoreProof(w, w[HdDelegation := Proof(d)], Norm(key));
    KeyIsNormal(key, 32);
    hide Trim, Norm, StringFrom, WithSignedKeys, IsKey, SignedKeysOk, RootOf, PathOf, ParsePath;
  }

  // ---------- HD roots with a mnemonic ----------

  lemma ResolveOfMnemonic(env: Crypto, id: AgentIdentity, author: string, ext: Extensions)
    requires id.hd && Trim(id.mnemonic) != ""
    ensures Resolve(env, id, author, ext) == if Valid(env, id) then ResolveDerived(env, id, Trim(author), ext) else None
  {
    hide Trim, Norm, Valid, ResolveDerived;
  }

  lemma SignsWhenResolved(env: Crypto, msg: Message, id: AgentIdentity)
    ensures SignMessage(env, msg, id).Some? <==>
              && Resolve(env, id, msg.author, msg.extensions).Some?
              && IsKey(Resolve(env, id, msg.author, msg.extensions).value.id.privateKey, 64)
  {
    hide Trim, Norm, Resolve, IsKey;
  }

  /** A signed delegation is valid and names the two keys. */
  lemma ChildDelegationFacts(env: Crypto, parent: AgentIdentity, child: AgentIdentity, stamp: string)
    requires ChildDelegation(env, parent, child, stamp).Some?
    ensures var d := ChildDelegation(env, parent, child, stamp).value;
            && ValidDelegation(env, d)
            && NormalizeDelegation(d) == d
            && Norm(d.terms.parentKey) == Norm(parent.publicKey)
            && Norm(d.terms.childKey) == Norm(child.publicKey)
            && IsKey(parent.publicKey, 32) && IsKey(child.publicKey, 32)
  {
    var terms := Terms(KIND, VERSION, Trim(parent.agentId), ED25519, Norm(parent.publicKey),
                       Trim(child.agentId), ED25519, Norm(child.publicKey), ["publish:any"], stamp, "");
    NormalizeIdempotent(terms);
    NormIdempotent(parent.publicKey);
    NormIdempotent(child.publicKey);
    hide Trim, Norm, SigningKey, UniqueScopes;
  }

  lemma RootIsNotBlank(author: string)
    requires RootOf(author).Some?
    ensures Trim(author) != "" && RootOf(author).value != ""
  {
    hide Trim;
  }

  lemma OnlyOriginKey(e: Extensions, originKey: string, parentKey: string)
    requires Norm(originKey) != "" && Norm(parentKey) == "" && StringFrom(e, ParentKey).None?
    ensures var w := WithSignedKeys(e, originKey, parentKey) - {HdDelegation};
            StringFrom(w, OriginKey).Some? && StringFrom(w, ParentKey).None?
  {
    NormIdempotent(originKey);
    hide Trim, Norm;
  }

  lemma MissingParentFails(env: Env, e: Extensions, author: string, originKey: string, parentKey: string)
    requires IsKey(originKey, 32) && Norm(parentKey) == "" && StringFrom(e, ParentKey).None?
    ensures !MetadataOk(env, WithSignedKeys(e, originKey, parentKey) - {HdDelegation}, author, Norm(originKey))
  {
    hide Trim, Norm, IsKey, HdOriginOk, DelegationOk, StringFrom, WithSignedKeys;
    KeyIsNormal(originKey, 32);
    OnlyOriginKey(e, originKey, parentKey);
  }

  lemma RootAuthorSigning(env: Env, msg: Message, id: AgentIdentity)
    requires CryptoOk(env.crypto) && id.hd && Trim(id.mnemonic) != "" && NoReservedText(msg.extensions)
    requires Trim(msg.author) == id.author && SignMessage(env.crypto, msg, id).Some?
    ensures ValidOrigin(env, SignMessage(env.crypto, msg, id).value) <==> Trim(id.publicKey) != ""
  {
    var author := Trim(msg.author);
    var r := Resolve(env.crypto, id, msg.author, msg.extensions).value;
    var path := PathOf(env.crypto.mac, author).value;
    DerivedPairIsProper(env.crypto, id.mnemonic, path);
    var pair := DeriveKeys(env.crypto, id.mnemonic, path).value;
    HexIsNormal(pair.public, 32);
    HexIsNormal(pair.private, 64);
    RootIsNotBlank(author);
    TrimIsTrimmed(msg.author);
    NormBlank(id.publicKey);
    hide Trim, Norm, WithSignedKeys, ValidOrigin, SignMessage, DeriveKeys, PathOf, RootOf, ValidDelegation, CryptoOk;
    assert r.id == DerivedSigner(id, author, path, pair);
    SignatureVerifies(env, msg, id);
    if Trim(id.publicKey) == "" {
      MissingParentFails(env, msg.extensions, author, pair.public, id.publicKey);
    } else {
      OneKeyPasses(env, msg.extensions, author, pair.public, id.publicKey);
    }
  }

  lemma FinishFacts(env: Crypto, w: Extensions, id: AgentIdentity, d: Delegation)
    requires id.delegation == Some(d) && NormalizeDelegation(d) == d && Finish(env, w, id).Some?
    ensures Finish(env, w, id).value == Resolved(id, WithProof(w, if NeedsDelegation(id) then Some(d) else None))
  {
    hide Trim, Norm, ValidDelegation, NormalizeTerms;
  }

  function DerivedPath(env: Crypto, author: string): string {
    if PathOf(env.mac, author).Some? then PathOf(env.mac, author).value else ""
  }

  function DerivedPair(env: Crypto, id: AgentIdentity, author: string): KeyPair {
    var keys := DeriveKeys(env, id.mnemonic, DerivedPath(env, author));
    if keys.Some? then keys.value else KeyPair("", "")
  }

  function ChildSigner(env: Crypto, id: AgentIdentity, author: string): AgentIdentity {
    DerivedSigner(id, author, DerivedPath(env, author), DerivedPair(env, id, author))
  }

  function ChildStamp(env: Crypto, id: AgentIdentity): string {
    env.utc(Trim(id.createdAt))
  }

  function ChildWithProof(env: Crypto, id: AgentIdentity, author: string): AgentIdentity {
    ChildSigner(env, id, author).(delegation := ChildDelegation(env, id, ChildSigner(env, id, author), ChildStamp(env, id)))
  }

  function ChildKeys(env: Crypto, id: AgentIdentity, author: string, ext: Extensions): Extensions {
    WithSignedKeys(WithHdOrigin(ext, id.author, id.publicKey, DerivedPath(env, author)),
                   DerivedPair(env, id, author).public, id.publicKey)
  }

  /** deriveSigningIdentity in terms of the names above. */
  lemma ResolveDerivedIs(env: Crypto, id: AgentIdentity, author: string, ext: Extensions)
    ensures ResolveDerived(env, id, author, ext) ==
              if RootOf(author) != Some(Trim(id.author)) || PathOf(env.mac, author).None?
                 || DeriveKeys(env, id.mnemonic, DerivedPath(env, author)).None? then None
              else if author == id.author then
                Finish(env, WithSignedKeys(ext, DerivedPair(env, id, author).public, id.publicKey), ChildSigner(env, id, author))
              else if ChildWithProof(env, id, author).delegation.None? then None
              else Finish(env, ChildKeys(env, id, author, ext), ChildWithProof(env, id, author))
  {
    hide Trim, Norm, WithSignedKeys, WithHdOrigin, DeriveKeys, PathOf, RootOf, ChildDelegation, Finish;
  }

  /** What deriveSigningIdentity hands on for an author other than the file's own. */
  lemma ChildResolved(env: Crypto, id: AgentIdentity, author: string, ext: Extensions)
    requires author != id.author && ResolveDerived(env, id, author, ext).Some?
    ensures PathOf(env.mac, author).Some? && RootOf(author) == Some(Trim(id.author))
    ensures DeriveKeys(env, id.mnemonic, DerivedPath(env, author)).Some?
    ensures ChildDelegation(env, id, ChildSigner(env, id, author), ChildStamp(env, id)).Some?
    ensures ResolveDerived(env, id, author, ext).value == Resolved(ChildWithProof(env, id, author),
              WithProof(ChildKeys(env, id, author, ext),
                        if NeedsDelegation(ChildSigner(env, id, author))
                        then ChildWithProof(env, id, author).delegation else None))
  {
    ResolveDerivedIs(env, id, author, ext);
    var signer := ChildSigner(env, id, author);
    ChildDelegationFacts(env, id, signer, ChildStamp(env, id));
    var d := ChildDelegation(env, id, signer, ChildStamp(env, id)).value;
    hide Trim, Norm, DeriveKeys, PathOf, RootOf, ValidDelegation, ChildDelegation, NormalizeDelegation, Finish,
         ResolveDerived, ChildKeys, ChildSigner;
    FinishFacts(env, ChildKeys(env, id, author, ext), ChildWithProof(env, id, author), d);
  }

  /** The derived signer's keys and names, as the origin carries them. */
  lemma ChildSignerFacts(env: Crypto, id: AgentIdentity, author: string)
    requires CryptoOk(env) && PathOf(env.mac, author).Some? && DeriveKeys(env, id.mnemonic, DerivedPath(env, author)).Some?
    ensures var signer := ChildWithProof(env, id, author);
            && MatchingKeys(signer.publicKey, signer.privateKey) && KeyIsGenuine(env, signer)
            && signer.agentId == id.agentId && Norm(signer.publicKey) == DerivedPair(env, id, author).public
            && signer.publicKey == DerivedPair(env, id, author).public
            && ChildKey(env, id, author) == Some(DerivedPair(env, id, author).public)
            && IsKey(DerivedPair(env, id, author).public, 32)
  {
    hide Trim, Norm, PathOf, DeriveKeys, CryptoOk, ChildDelegation, LowerHex;
    DerivedPairIsProper(env, id.mnemonic, DerivedPath(env, author));
    ProperPairReads(env, DerivedPair(env, id, author));
  }

  lemma ChildAuthorSigning(env: Env, msg: Message, id: AgentIdentity)
    requires CryptoOk(env.crypto) && id.hd && Trim(id.mnemonic) != ""
    requires Trim(msg.author) != id.author && SignMessage(env.crypto, msg, id).Some?
    ensures ValidOrigin(env, SignMessage(env.crypto, msg, id).value) <==>
              Trim(msg.author) != Trim(id.author) && ChildKey(env.crypto, id, Trim(msg.author)) != Some(Norm(id.publicKey))
  {
    hide Trim, Norm, WithSignedKeys, WithHdOrigin, ValidOrigin, SignMessage, DeriveKeys, PathOf, RootOf, ValidDelegation,
         CryptoOk, ChildDelegation, NormalizeDelegation, MetadataOk, ParsePath, Resolve, ResolveDerived, WithProof, IsKey,
         MatchingKeys, KeyIsGenuine, ChildKey, DerivedPair, DerivedPath;
    var author := Trim(msg.author);
    ResolveOfMnemonic(env.crypto, id, msg.author, msg.extensions);
    SignsWhenResolved(env.crypto, msg, id);
    ChildResolved(env.crypto, id, author, msg.extensions);
    ChildSignerFacts(env.crypto, id, author);
    var path, pair := DerivedPath(env.crypto, author), DerivedPair(env.crypto, id, author);
    var signer, stamp := ChildSigner(env.crypto, id, author), ChildStamp(env.crypto, id);
    var d := ChildDelegation(env.crypto, id, signer, stamp).value;
    RootIsNotBlank(author);
    TrimIsTrimmed(msg.author);
    DerivedPathFacts(env.crypto, author);
    ChildDelegationFacts(env.crypto, id, signer, stamp);
    KeyIsNormal(id.publicKey, 32);
    var proof := if NeedsDelegation(signer) then Some(d) else None;
    SignatureVerifies(env, msg, id);
    DerivedMetadata(env, msg.extensions, author, id.author, path, pair.public, id.publicKey, proof);
  }

  lemma DerivedPathFacts(env: Crypto, author: string)
    requires CryptoOk(env) && PathOf(env.mac, author).Some?
    ensures var path := DerivedPath(env, author);
            PathOf(env.mac, author) == Some(path) && Trim(path) == path != "" && ParsePath(path).Some?
  {
    hide Trim, PathOf, ParsePath, CryptoOk;
    PathFacts(env, author);
  }

  // ---------- Key files of HD identities ----------

  lemma PartialHdFails(env: Env, e: Extensions, author: string, key: string)
    requires StringFrom(e, HdPath).Some? && (StringFrom(e, HdParent).None? || StringFrom(e, HdParentKey).None?)
    ensures !MetadataOk(env, e, author, key)
  {
    hide StringFrom, SignedKeysOk, DelegationOk;
  }

  function FileHd(ext: Extensions, id: AgentIdentity): Extensions {
    if id.parent == "" then ext
    else if id.parentKey == "" then ext[HdParent := Str(id.parent)][HdPath := Str(id.path)]
    else WithHdOrigin(ext, id.parent, id.parentKey, id.path)
  }

  lemma FileStrings(ext: Extensions, id: AgentIdentity)
    requires id.parent != "" && Trim(id.path) != "" && StringFrom(ext, HdParentKey).None?
    requires Trim(id.parent) == "" || Trim(id.parentKey) == ""
    ensures var e := FileHd(ext, id);
            StringFrom(e, HdPath).Some? && (StringFrom(e, HdParent).None? || StringFrom(e, HdParentKey).None?)
  {
    hide Trim;
  }

  lemma KeysLeaveHd(ext: Extensions, originKey: string, parentKey: string, proof: Option<Delegation>)
    ensures forall k :: k in {HdParent, HdParentKey, HdPath} ==>
              StringFrom(WithProof(WithSignedKeys(ext, originKey, parentKey), proof), k) == StringFrom(ext, k)
  {
    ProofStrings(WithSignedKeys(ext, originKey, parentKey), proof);
    hide Trim, Norm, WithProof;
  }

  function FileProof(id: AgentIdentity): Option<Delegation> {
    if NeedsDelegation(id) && id.delegation.Some? then Some(NormalizeDelegation(id.delegation.value)) else None
  }

  function FileParentKey(id: AgentIdentity): string {
    if Trim(id.parentKey) == "" then id.publicKey else id.parentKey
  }

  lemma FileResolved(env: Crypto, id: AgentIdentity, author: string, ext: Extensions)
    requires ResolveKeyFile(env, id, author, ext).Some?
    ensures id.author == "" || id.author == author
    ensures var r := ResolveKeyFile(env, id, author, ext).value;
            && r.id == id
            && r.extensions == WithProof(WithSignedKeys(FileHd(ext, id), id.publicKey, FileParentKey(id)), FileProof(id))
    ensures NeedsDelegation(id) ==> id.delegation.Some?
  {
    hide Trim, Norm, WithSignedKeys, ValidDelegation, NormalizeTerms;
  }

  lemma KeyFileMetadata(env: Env, id: AgentIdentity, author: string, ext: Extensions)
    requires NoReservedText(ext) && ValidKeyFile(env.crypto, id) && Trim(author) == author
    requires Trim(id.path) != "" && ParsePath(id.path).Some?
    requires NeedsDelegation(id) ==> id.delegation.Some?
    ensures MetadataOk(env, WithProof(WithSignedKeys(FileHd(ext, id), id.publicKey, FileParentKey(id)), FileProof(id)),
                       author, Norm(id.publicKey))
       <==> if id.parent == "" then Norm(id.parentKey) == "" || Norm(id.parentKey) == Norm(id.publicKey)
            else
              && Norm(id.parentKey) != "" && Norm(id.parentKey) != Norm(id.publicKey)
              && RootOf(author) == Some(Trim(id.parent))
              && Trim(id.parent) != author
              && PathOf(env.crypto.mac, author) == Some(Trim(id.path))
  {
    var e, parentKey, proof := FileHd(ext, id), FileParentKey(id), FileProof(id);
    NormBlank(id.parentKey);
    BlankTrims();
    if id.delegation.Some? { KeyFileProof(env.crypto, id); }
    if RootOf(author).Some? { RootIsNotBlank(author); }
    KeysLeaveHd(e, id.publicKey, parentKey, proof);
    hide Trim, Norm, WithSignedKeys, WithHdOrigin, PathOf, RootOf, ValidDelegation, NormalizeTerms, MetadataOk, ParsePath,
         StringFrom;
    if id.parent == "" {
      if Norm(parentKey) == Norm(id.publicKey) {
        OneKeyPasses(env, e, author, id.publicKey, parentKey);
      } else {
        TwoKeysNeedProof(env, e, author, id.publicKey, parentKey);
      }
    } else if Trim(id.parent) == "" || Trim(id.parentKey) == "" {
      FileStrings(ext, id);
      PartialHdFails(env, WithProof(WithSignedKeys(e, id.publicKey, parentKey), proof), author, Norm(id.publicKey));
    } else {
      DerivedMetadata(env, ext, author, id.parent, id.path, id.publicKey, id.parentKey, proof);
    }
  }

  lemma KeyFileSigning(env: Env, msg: Message, id: AgentIdentity)
    requires id.hd && Trim(id.mnemonic) == "" && NoReservedText(msg.extensions)
    requires SignMessage(env.crypto, msg, id).Some?
    ensures ValidOrigin(env, SignMessage(env.crypto, msg, id).value) <==> Fits(env.crypto, id, Trim(msg.author))
  {
    var author := Trim(msg.author);
    NormBlank(id.privateKey);
    TrimIsTrimmed(msg.author);
    BlankTrims();
    FileResolved(env.crypto, id, author, msg.extensions);
    KeyFileMetadata(env, id, author, msg.extensions);
    SignatureVerifies(env, msg, id);
    hide Trim, Norm, ValidOrigin, SignMessage, PathOf, RootOf, MetadataOk, ParsePath, ResolveKeyFile, WithProof,
         WithSignedKeys, ValidDelegation, FileHd, FileProof, FileParentKey, NoReservedText;
  }

  lemma KeyFileProof(env: Crypto, id: AgentIdentity)
    requires id.delegation.Some?
    ensures var d := NormalizeDelegation(id.delegation.value);
            && ValidDelegation(env, d) == ValidDelegation(env, id.delegation.value)
            && Norm(d.terms.childKey) == Norm(id.delegation.value.terms.childKey)
            && Norm(d.terms.parentKey) == Norm(id.delegation.value.terms.parentKey)
  {
    var d := id.delegation.value;
    NormalizedStaysValid(env, d);
    NormIdempotent(d.terms.childKey);
    NormIdempotent(d.terms.parentKey);
    hide Trim, Norm, ValidDelegation;
  }

  // ---------- The theorem ----------

  /** For every identity that BuildSignedOrigin accepts and every message whose extensions hold no reserved text: the
      signed message passes ValidateMessageOrigin if and only if the identity and the author fit. */
  lemma SignedMessageValidates(env: Env, msg: Message, id: AgentIdentity)
    requires CryptoOk(env.crypto) && NoReservedText(msg.extensions) && SignMessage(env.crypto, msg, id).Some?
    ensures ValidOrigin(env, SignMessage(env.crypto, msg, id).value) <==> Fits(env.crypto, id, Trim(msg.author))
  {
    if !id.hd {
      PlainSigning(env, msg, id);
    } else if Trim(id.mnemonic) == "" {
      KeyFileSigning(env, msg, id);
    } else if Trim(msg.author) == id.author {
      RootAuthorSigning(env, msg, id);
    } else {
      ChildAuthorSigning(env, msg, id);
    }
    hide Trim, Norm, ValidOrigin, SignMessage, CryptoOk, ChildKey, RootOf, PathOf, KeyIsGenuine, NoReservedText;
  }
}
