/** What ValidateMessageOrigin and ValidateSignedMetadata refuse, whoever made the message
    (internal/aip2p/identity.go:351-410, 623-760). */
module OriginRefusals {
  import opened Delegations
  import opened HDPaths
  import opened Identity
  import opened Options
  import opened Text

  // ---------- Signer ----------

  /** The key an accepted origin names, normalized. */
  function SignerKey(msg: Message): string
    requires msg.origin.Some?
  {
    Norm(msg.origin.value.signer.key)
  }

  /** An accepted message was signed, as it stands, with the secret half of the key its origin names, for the author it names. */
  lemma AcceptedIsSigned(env: Env, msg: Message)
    requires msg.origin.Some? && ValidOrigin(env, msg)
    ensures var o := msg.origin.value;
            && o.signature.Signed? && env.crypto.publicOf(o.signature.seed) == o.signature.key == SignerKey(msg)
            && |SignerKey(msg)| == 64 && (forall c <- SignerKey(msg) :: '0' <= c <= '9' || 'a' <= c <= 'f')
            && o.signature.content
               == Payload(msg.fields, Trim(msg.author), Signer(Trim(msg.author), Trim(o.signer.agentId), ED25519, SignerKey(msg)),
                          msg.extensions)
            && Trim(o.signer.author) == Trim(msg.author) != "" && Trim(o.signer.agentId) != ""
            && Trim(o.signer.keyType) == "ed25519"
  {
    NormIdempotent(msg.origin.value.signer.key);
    hide Trim, Norm, SignedKeysOk, HdOriginOk, DelegationOk;
  }

  // ---------- Parent keys ----------

  /** The message names a parent key other than its signer's, or carries text that only derived authors have. */
  predicate IsDerived(ext: Extensions, key: string) {
    || (HasText(ext, ParentKey) && Norm(TextOf(ext, ParentKey)) != key)
    || HasText(ext, HdParent) || HasText(ext, HdParentKey) || HasText(ext, HdPath)
  }

  predicate HasText(ext: Extensions, k: Key) {
    k in ext && ext[k].Str? && Trim(ext[k].text) != ""
  }

  function TextOf(ext: Extensions, k: Key): string {
    if k in ext && ext[k].Str? then Trim(ext[k].text) else ""
  }

  lemma TextsAre(ext: Extensions, k: Key)
    ensures StringFrom(ext, k) == if HasText(ext, k) then Some(TextOf(ext, k)) else None
  {
    hide Trim;
  }

  lemma TextIsTrimmed(ext: Extensions, k: Key)
    ensures Trim(TextOf(ext, k)) == TextOf(ext, k)
  {
    if k in ext && ext[k].Str? {
      TrimIsTrimmed(ext[k].text);
    } else {
      BlankTrims();
    }
    hide Trim;
  }

  lemma AllTexts(ext: Extensions)
    ensures forall k :: StringFrom(ext, k) == if HasText(ext, k) then Some(TextOf(ext, k)) else None
    ensures forall k :: Trim(TextOf(ext, k)) == TextOf(ext, k)
  {
    hide HasText, TextOf, StringFrom, Trim;
    forall k ensures StringFrom(ext, k) == if HasText(ext, k) then Some(TextOf(ext, k)) else None {
      TextsAre(ext, k);
    }
    forall k ensures Trim(TextOf(ext, k)) == TextOf(ext, k) {
      TextIsTrimmed(ext, k);
    }
  }

  /** The extension is this delegation, as an object or as the JSON text of one. */
  predicate Holds(env: Env, ext: Extensions, d: Delegation) {
    HdDelegation in ext
    && (ext[HdDelegation] == Proof(d) || (ext[HdDelegation].Str? && env.parseProof(ext[HdDelegation].text) == Some(d)))
  }

  /** The delegation was signed with the secret half of the parent key it names, and names the child key. */
  predicate Delegates(env: Crypto, d: Delegation, parentKey: string, childKey: string) {
    && d.signature.Signed? && env.publicOf(d.signature.seed) == d.signature.key == parentKey
    && d.signature.content == NormalizeTerms(d.terms)
    && Norm(d.terms.parentKey) == parentKey && Norm(d.terms.childKey) == childKey
    && NormalizeTerms(d.terms).kind == KIND && NormalizeTerms(d.terms).version == VERSION
  }

  /** A delegation is valid exactly if its kind, version and key types are the known ones or left out, its times are times, both
      keys are 32 bytes in hex, and its normalized terms were signed with the secret half of the parent key. */
  lemma DelegationIsValidExactly(env: Crypto, d: Delegation)
    ensures ValidDelegation(env, d) <==>
              var t := d.terms;
              && Trim(t.kind) in {"", "writer_delegation"} && Trim(t.version) in {"", "aip2p-delegation/0.1"}
              && Trim(t.parentKeyType) in {"", "ed25519"} && Trim(t.childKeyType) in {"", "ed25519"}
              && env.isTime(Trim(t.createdAt)) && (Trim(t.expiresAt) == "" || env.isTime(Trim(t.expiresAt)))
              && Hex(Norm(t.parentKey), 64) && Hex(Norm(t.childKey), 64)
              && d.signature.Signed? && d.signature.content == NormalizeTerms(t)
              && env.publicOf(d.signature.seed) == d.signature.key == Norm(t.parentKey)
  {
    var t := d.terms;
    KeysAreHex(Norm(t.parentKey), 32);
    KeysAreHex(Norm(t.childKey), 32);
    NormIdempotent(t.parentKey);
    NormIdempotent(t.childKey);
    hide Trim, Norm, UniqueScopes, IsKey;
  }

  predicate Hex(s: string, digits: nat) {
    |s| == digits && forall c <- s :: '0' <= c <= '9' || 'a' <= c <= 'f'
  }

  lemma KeysAreHex(raw: string, bytes: nat)
    ensures IsKey(raw, bytes) <==> Hex(Norm(raw), 2 * bytes)
  {
    hide Norm;
    var s := Norm(raw);
    if Hex(s, 2 * bytes) {
      forall k | 0 <= k < |s| ensures IsLowerHex(s[k]) { assert s[k] in s; }
    }
  }

  /** One signature fits one delegation: two valid ones with the same signature have the same normalized terms, and a delegation
      changed in them is refused. */
  lemma DelegationSignatureBinds(env: Crypto, d: Delegation, e: Delegation)
    requires ValidDelegation(env, d) && e.signature == d.signature
    ensures ValidDelegation(env, e) ==> NormalizeTerms(e.terms) == NormalizeTerms(d.terms)
  {
    hide NormalizeTerms, IsKey;
  }

  /** A delegation stored as its JSON text counts as the delegation itself. */
  lemma TextDelegationCounts(env: Env, ext: Extensions, text: string, d: Delegation, key: string)
    requires env.parseProof(text) == Some(d)
    ensures DelegationOk(env, ext[HdDelegation := Str(text)], key) <==> DelegationOk(env, ext[HdDelegation := Proof(d)], key)
  {
    hide Trim, Norm, ValidDelegation, StringFrom;
    var a, b := ext[HdDelegation := Str(text)], ext[HdDelegation := Proof(d)];
    forall k: Key | k != HdDelegation ensures StringFrom(a, k) == StringFrom(b, k) {
      AddingText(ext, Str(text), k);
      AddingText(ext, Proof(d), k);
    }
    assert RequiresDelegation(a, key) == RequiresDelegation(b, key);
    assert ReadProof(env, a[HdDelegation]) == ReadProof(env, b[HdDelegation]);
  }

  lemma AddingText(ext: Extensions, v: Value, k: Key)
    requires k != HdDelegation
    ensures StringFrom(ext[HdDelegation := v], k) == StringFrom(ext, k)
  {
    hide Trim;
  }

  /** A message without any of the keys that signing writes, as older versions made them, is accepted with just its signature. */
  lemma BareMessageIsAccepted(env: Env, fields: string, author: string, agentId: string, seed: string, ext: Extensions)
    requires CryptoOk(env.crypto) && Trim(agentId) != "" && Trim(author) != ""
    requires forall k :: k in {OriginKey, ParentKey, HdParent, HdParentKey, HdPath} ==> !HasText(ext, k)
    ensures var key := env.crypto.publicOf(seed);
            var signer := Signer(Trim(author), Trim(agentId), ED25519, key);
            ValidOrigin(env, Message(fields, author, ext,
                                     Some(Origin(signer, Signed(seed, key, Payload(fields, Trim(author), signer, ext))))))
  {
    var key := env.crypto.publicOf(seed);
    HexIsNormal(key, 32);
    AllTexts(ext);
    TrimIsTrimmed(author);
    TrimIsTrimmed(agentId);
    ConstantsAreTrimmed();
    hide Trim, Norm, HasText, TextOf, StringFrom, LowerHex, RootOf, PathOf;
  }

  lemma ValidDelegates(env: Crypto, d: Delegation)
    requires ValidDelegation(env, d)
    ensures Delegates(env, d, Norm(d.terms.parentKey), Norm(d.terms.childKey))
  {
    hide Trim, Norm, UniqueScopes;
  }

  /** Every accepted message of a derived author carries a delegation signed by its parent key for exactly the key that signed
      the message; parent_public_key names that parent key, and so does hd.parent_pubkey if it is there. */
  lemma DerivedIsDelegated(env: Env, msg: Message) returns (d: Delegation)
    requires msg.origin.Some? && ValidOrigin(env, msg) && IsDerived(msg.extensions, SignerKey(msg))
    ensures Holds(env, msg.extensions, d)
    ensures HasText(msg.extensions, ParentKey)
    ensures Delegates(env.crypto, d, Norm(TextOf(msg.extensions, ParentKey)), SignerKey(msg))
    ensures HasText(msg.extensions, HdParentKey) ==>
              Norm(TextOf(msg.extensions, HdParentKey)) == Norm(TextOf(msg.extensions, ParentKey))
  {
    NormIdempotent(msg.origin.value.signer.key);
    hide Trim, Norm, HdOriginOk, SignedKeysOk, ValidDelegation, HasText, TextOf, StringFrom, Delegates;
    AllTexts(msg.extensions);
    d := ReadProof(env, msg.extensions[HdDelegation]).value;
    ValidDelegates(env.crypto, d);
  }

  /** The parts of the validation, for a message that passes it. */
  lemma AcceptedParts(env: Env, msg: Message)
    requires msg.origin.Some? && ValidOrigin(env, msg)
    ensures SignedKeysOk(msg.extensions, SignerKey(msg)) && HdOriginOk(env.crypto, Trim(msg.author), msg.extensions)
    ensures DelegationOk(env, msg.extensions, SignerKey(msg)) && Trim(msg.author) != ""
  {
    hide Trim, Norm, SignedKeysOk, HdOriginOk, DelegationOk, IsKey;
  }

  /** An accepted message has both signed keys in its extensions or neither, the one of the origin being the signer's; and all
      three texts of a derived author or none, in which case the author lies below hd.parent and hd.path is its own. */
  lemma AcceptedTexts(env: Env, msg: Message)
    requires msg.origin.Some? && ValidOrigin(env, msg)
    ensures var ext, author := msg.extensions, Trim(msg.author);
            && (HasText(ext, OriginKey) <==> HasText(ext, ParentKey))
            && (HasText(ext, OriginKey) ==>
                  Norm(TextOf(ext, OriginKey)) == SignerKey(msg) && Hex(Norm(TextOf(ext, ParentKey)), 64))
            && (HasText(ext, HdParent) <==> HasText(ext, HdPath)) && (HasText(ext, HdParent) <==> HasText(ext, HdParentKey))
            && (HasText(ext, HdParent) ==>
                  && RootOf(author) == Some(TextOf(ext, HdParent)) && author != TextOf(ext, HdParent)
                  && PathOf(env.crypto.mac, author) == Some(TextOf(ext, HdPath)))
  {
    NormIdempotent(msg.origin.value.signer.key);
    hide Trim, Norm, DelegationOk, HasText, TextOf, StringFrom, RootOf, PathOf, ParsePath, IsKey, ValidOrigin;
    AcceptedParts(env, msg);
    AllTexts(msg.extensions);
    KeysAreHex(TextOf(msg.extensions, ParentKey), 32);
    hide Hex;
  }

  // ---------- Replay ----------

  /** The same author, fields and extensions signed anew with another seed, the origin key changed to that of the seed. */
  function Resigned(env: Crypto, msg: Message, agentId: string, seed: string): Message {
    var key := env.publicOf(seed);
    var ext := msg.extensions[OriginKey := Str(key)];
    var signer := Signer(Trim(msg.author), Trim(agentId), ED25519, key);
    Message(msg.fields, msg.author, ext,
            Some(Origin(signer, Signed(seed, key, Payload(msg.fields, Trim(msg.author), signer, ext)))))
  }

  /** Nobody can sign under a derived author with the delegation of another key: an accepted message signed anew with any seed
      is accepted again exactly if the seed is that of the key it was delegated to, or that of the parent itself on a message
      without the texts of a derived author. */
  lemma ReplayIsRefused(env: Env, msg: Message, agentId: string, seed: string)
    requires CryptoOk(env.crypto) && Trim(agentId) != ""
    requires msg.origin.Some? && ValidOrigin(env, msg) && IsDerived(msg.extensions, SignerKey(msg))
    ensures var key := env.crypto.publicOf(seed);
            ValidOrigin(env, Resigned(env.crypto, msg, agentId, seed)) <==>
              || key == SignerKey(msg)
              || (key == Norm(TextOf(msg.extensions, ParentKey)) && !HasText(msg.extensions, HdParent))
  {
    hide Trim, Norm, ValidOrigin, ValidDelegation, HasText, TextOf, StringFrom, Resigned, RootOf, PathOf, ParsePath, LowerHex,
         DelegationOk, HdOriginOk, SignedKeysOk, CryptoOk;
    var ext, author := msg.extensions, Trim(msg.author);
    var key, again := env.crypto.publicOf(seed), Resigned(env.crypto, msg, agentId, seed).extensions;
    SignerIsNormal(env, msg, seed);
    AcceptedParts(env, msg);
    AcceptedTexts(env, msg);
    var d := DerivedIsDelegated(env, msg);
    AcceptedKeys(env, msg);
    ResignedTexts(env.crypto, msg, agentId, seed);
    ResignedIsSigned(env, msg, agentId, seed);
    AllTexts(ext);
    AllTexts(again);
    SameOriginCheck(env, ext, again, author);
    SignedKeysAgain(again, key);
    DerivedRequires(ext, SignerKey(msg));
    DerivedRequires(again, key);
    DelegationAgain(env, ext, again, SignerKey(msg), key);
  }

  lemma SignerIsNormal(env: Env, msg: Message, seed: string)
    requires CryptoOk(env.crypto) && msg.origin.Some?
    ensures Norm(SignerKey(msg)) == SignerKey(msg) && Norm(env.crypto.publicOf(seed)) == env.crypto.publicOf(seed)
    ensures IsKey(env.crypto.publicOf(seed), 32)
  {
    NormIdempotent(msg.origin.value.signer.key);
    HexIsNormal(env.crypto.publicOf(seed), 32);
    hide Trim, Norm;
  }

  lemma DerivedRequires(ext: Extensions, key: string)
    requires Norm(key) == key
    ensures RequiresDelegation(ext, key) <==> IsDerived(ext, key)
  {
    hide Trim, Norm, HasText, TextOf, StringFrom;
    AllTexts(ext);
  }

  lemma SignedKeysAgain(ext: Extensions, key: string)
    requires StringFrom(ext, OriginKey) == Some(key) && IsKey(key, 32)
    requires StringFrom(ext, ParentKey).Some? && IsKey(StringFrom(ext, ParentKey).value, 32)
    ensures SignedKeysOk(ext, key)
  {
    hide Norm, StringFrom, LowerHex;
  }

  lemma DelegationAgain(env: Env, ext: Extensions, again: Extensions, signer: string, key: string)
    requires DelegationOk(env, ext, signer) && RequiresDelegation(ext, signer) && Norm(signer) == signer && Norm(key) == key
    requires forall k :: k != OriginKey ==> StringFrom(again, k) == StringFrom(ext, k)
    requires HdDelegation in ext ==> HdDelegation in again && again[HdDelegation] == ext[HdDelegation]
    ensures DelegationOk(env, again, key) <==> !RequiresDelegation(again, key) || key == signer
  {
    hide Norm, StringFrom, ValidDelegation, RequiresDelegation;
  }

  lemma AcceptedKeys(env: Env, msg: Message)
    requires msg.origin.Some? && ValidOrigin(env, msg) && HasText(msg.extensions, ParentKey)
    ensures IsKey(TextOf(msg.extensions, ParentKey), 32)
  {
    AcceptedParts(env, msg);
    AllTexts(msg.extensions);
    hide Trim, Norm, ValidOrigin, HasText, TextOf, StringFrom, IsKey;
  }

  lemma ResignedTexts(env: Crypto, msg: Message, agentId: string, seed: string)
    requires CryptoOk(env)
    ensures var ext, again := msg.extensions, Resigned(env, msg, agentId, seed).extensions;
            && HasText(again, OriginKey) && TextOf(again, OriginKey) == env.publicOf(seed)
            && (forall k :: k != OriginKey ==> (HasText(again, k) <==> HasText(ext, k)) && TextOf(again, k) == TextOf(ext, k))
            && (HdDelegation in again <==> HdDelegation in ext)
            && (HdDelegation in ext ==> again[HdDelegation] == ext[HdDelegation])
  {
    ResignedExtensions(env, msg, agentId, seed);
    HexIsNormal(env.publicOf(seed), 32);
    hide Trim, Norm, Resigned, CryptoOk;
  }

  lemma ResignedExtensions(env: Crypto, msg: Message, agentId: string, seed: string)
    ensures Resigned(env, msg, agentId, seed).extensions == msg.extensions[OriginKey := Str(env.publicOf(seed))]
  {
    hide Trim;
  }

  lemma ResignedIsSigned(env: Env, msg: Message, agentId: string, seed: string)
    requires CryptoOk(env.crypto) && Trim(agentId) != "" && Trim(msg.author) != ""
    ensures var again, key := Resigned(env.crypto, msg, agentId, seed), env.crypto.publicOf(seed);
            ValidOrigin(env, again) <==>
              SignedKeysOk(again.extensions, key) && HdOriginOk(env.crypto, Trim(msg.author), again.extensions)
              && DelegationOk(env, again.extensions, key)
  {
    var key := env.crypto.publicOf(seed);
    HexIsNormal(key, 32);
    TrimIsTrimmed(msg.author);
    TrimIsTrimmed(agentId);
    ConstantsAreTrimmed();
    hide Trim, Norm, SignedKeysOk, HdOriginOk, DelegationOk;
  }

  lemma SameOriginCheck(env: Env, a: Extensions, b: Extensions, author: string)
    requires forall k :: k in {HdParent, HdParentKey, HdPath} ==> StringFrom(a, k) == StringFrom(b, k)
    ensures HdOriginOk(env.crypto, author, a) == HdOriginOk(env.crypto, author, b)
  {
    hide Trim, StringFrom, RootOf, PathOf, ParsePath, IsKey;
  }
}
