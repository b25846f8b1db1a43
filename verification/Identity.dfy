/** Signing a message with an agent identity and validating the signed message (internal/aip2p/identity.go). */
module Identity {
  import opened Delegations
  import opened HDPaths
  import opened Options
  import opened Text

  // ---------- Identities and messages ----------

  datatype AgentIdentity = AgentIdentity(
    agentId: string, author: string, keyType: string, publicKey: string, privateKey: string, createdAt: string,
    hd: bool, mnemonic: string, masterKey: string, path: string, parent: string, parentKey: string,
    delegation: Option<Delegation>)

  /** Extension keys: the ones signing writes, and all others by name. */
  datatype Key = HdParent | HdParentKey | HdPath | HdDelegation | OriginKey | ParentKey | Named(name: string)

  /** Extension values: text, a delegation in its JSON form, anything else. */
  datatype Value = Str(text: string) | Proof(delegation: Delegation) | Other(what: int)

  type Extensions = map<Key, Value>

  /** The origin without its signature: what the signature covers of it. */
  datatype Signer = Signer(author: string, agentId: string, keyType: string, key: string)

  /** signedMessagePayload; fields stands for the signed fields that identity code only passes through. */
  datatype Payload = Payload(fields: string, author: string, signer: Signer, extensions: Extensions)

  datatype Origin = Origin(signer: Signer, signature: Signature<Payload>)

  datatype Message = Message(fields: string, author: string, extensions: Extensions, origin: Option<Origin>)

  /** Cryptography, and reading a delegation from the JSON text it may be stored as. */
  datatype Env = Env(crypto: Crypto, parseProof: string -> Option<Delegation>)

  // ---------- Validate ----------

  predicate MatchingKeys(public: string, private: string) {
    IsKey(public, 32) && IsKey(private, 64) && Norm(private)[64..] == Norm(public)
  }

  /** validateHD with the mnemonic in the file. */
  predicate ValidMnemonic(env: Crypto, id: AgentIdentity) {
    match DeriveKeys(env, id.mnemonic, id.path)
    case None => false
    case Some(pair) =>
      && (Norm(id.publicKey) == "" || Norm(id.publicKey) == pair.public)
      && (Norm(id.privateKey) == "" || Norm(id.privateKey) == pair.private)
      && (Norm(id.masterKey) == "" || Trim(id.parent) != "" || Norm(id.masterKey) == pair.public)
  }

  /** validateHD without a mnemonic. */
  predicate ValidKeyFile(env: Crypto, id: AgentIdentity) {
    && IsKey(id.publicKey, 32)
    && (Norm(id.privateKey) == "" || MatchingKeys(id.publicKey, id.privateKey))
    && (Trim(id.parent) == "" || Norm(id.parentKey) == "" || IsKey(id.parentKey, 32))
    && (id.delegation.Some? ==>
          && ValidDelegation(env, id.delegation.value)
          && Norm(id.delegation.value.terms.childKey) == Norm(id.publicKey)
          && (Trim(id.parentKey) == "" || Norm(id.delegation.value.terms.parentKey) == Norm(id.parentKey)))
  }

  /** Validate. */
  predicate Valid(env: Crypto, id: AgentIdentity) {
    && Trim(id.agentId) != "" && Trim(id.keyType) == ED25519 && env.isTime(Trim(id.createdAt))
    && if id.hd then
         && Trim(id.author) != "" && Trim(id.path) != "" && ParsePath(id.path).Some?
         && if Trim(id.mnemonic) != "" then ValidMnemonic(env, id) else ValidKeyFile(env, id)
       else
         Norm(id.privateKey) != "" && MatchingKeys(id.publicKey, id.privateKey)
  }

  /** ValidatePrivate. */
  predicate ValidPrivate(env: Crypto, id: AgentIdentity) {
    Valid(env, id) && (Trim(id.privateKey) != "" || Trim(id.mnemonic) != "")
  }

  /** signingPrivateKey. */
  function SigningKey(env: Crypto, id: AgentIdentity): Option<string> {
    if !ValidPrivate(env, id) then None
    else if Trim(id.privateKey) != "" then
      if IsKey(id.privateKey, 64) then Some(Norm(id.privateKey)) else None
    else if !id.hd || Trim(id.mnemonic) == "" then None
    else
      match DeriveKeys(env, id.mnemonic, id.path)
      case None => None
      case Some(pair) => if IsKey(pair.private, 64) then Some(Norm(pair.private)) else None
  }

  // ---------- Signing ----------

  /** SignWriterDelegation. */
  function SignDelegation(env: Crypto, terms: Terms, id: AgentIdentity): Option<Delegation> {
    match SigningKey(env, id)
    case None => None
    case Some(private) =>
      if !LowerHex(private, 64) then None
      else
        var t := NormalizeTerms(terms);
        var d := Delegation(t, Sign(private, t));
        if ValidDelegation(env, d) then Some(d) else None
  }

  /** BuildChildWriterDelegation; stamp is the creation time in UTC. */
  function ChildDelegation(env: Crypto, parent: AgentIdentity, child: AgentIdentity, stamp: string): Option<Delegation> {
    SignDelegation(env,
      Terms(KIND, VERSION, Trim(parent.agentId), ED25519, Norm(parent.publicKey),
            Trim(child.agentId), ED25519, Norm(child.publicKey), ["publish:any"], stamp, ""),
      parent)
  }

  /** requiresDelegationForIdentity. */
  predicate NeedsDelegation(id: AgentIdentity) {
    Trim(id.parent) != "" && Trim(id.parentKey) != "" && Norm(id.parentKey) != Norm(id.publicKey)
  }

  /** applySignedKeyMetadata. */
  function WithSignedKeys(ext: Extensions, originKey: string, parentKey: string): Extensions {
    var withOrigin := if Norm(originKey) != "" then ext[OriginKey := Str(Norm(originKey))] else ext;
    if Norm(parentKey) != "" then withOrigin[ParentKey := Str(Norm(parentKey))] else withOrigin
  }

  /** applyDelegationMetadata. */
  function WithDelegation(env: Crypto, ext: Extensions, id: AgentIdentity): Option<Extensions> {
    if !NeedsDelegation(id) then Some(ext - {HdDelegation})
    else if id.delegation.None? || !ValidDelegation(env, id.delegation.value) then None
    else Some(ext[HdDelegation := Proof(NormalizeDelegation(id.delegation.value))])
  }

  function WithHdOrigin(ext: Extensions, parent: string, parentKey: string, path: string): Extensions {
    ext[HdParent := Str(parent)][HdParentKey := Str(parentKey)][HdPath := Str(path)]
  }

  datatype Resolved = Resolved(id: AgentIdentity, extensions: Extensions)

  function Finish(env: Crypto, ext: Extensions, id: AgentIdentity): Option<Resolved> {
    match WithDelegation(env, ext, id)
    case None => None
    case Some(e) => Some(Resolved(id, e))
  }

  /** The identity that deriveSigningIdentity signs with, before its delegation is attached. */
  function DerivedSigner(id: AgentIdentity, author: string, path: string, pair: KeyPair): AgentIdentity {
    AgentIdentity(id.agentId, author, ED25519, pair.public, pair.private, id.createdAt,
                  true, "", id.publicKey, path, id.author, id.publicKey, None)
  }

  /** deriveSigningIdentity. */
  function ResolveDerived(env: Crypto, id: AgentIdentity, author: string, ext: Extensions): Option<Resolved> {
    if RootOf(author) != Some(Trim(id.author)) || PathOf(env.mac, author).None? then None
    else
      var path := PathOf(env.mac, author).value;
      match DeriveKeys(env, id.mnemonic, path)
      case None => None
      case Some(pair) =>
        var signer := DerivedSigner(id, author, path, pair);
        var child := author != id.author;
        var withHd := if child then WithHdOrigin(ext, id.author, id.publicKey, path) else ext;
        var withKeys := WithSignedKeys(withHd, pair.public, id.publicKey);
        if !child then Finish(env, withKeys, signer)
        else
          match ChildDelegation(env, id, signer, env.utc(Trim(id.createdAt)))
          case None => None
          case Some(d) => Finish(env, withKeys, signer.(delegation := Some(d)))
  }

  /** resolveSigningIdentity for an HD identity without a mnemonic. */
  function ResolveKeyFile(env: Crypto, id: AgentIdentity, author: string, ext: Extensions): Option<Resolved> {
    if id.author != "" && id.author != author then None
    else
      var withHd :=
        if id.parent == "" then ext
        else
          var withParent := ext[HdParent := Str(id.parent)];
          var withKey := if id.parentKey != "" then withParent[HdParentKey := Str(id.parentKey)] else withParent;
          withKey[HdPath := Str(id.path)];
      var parentKey := if Trim(id.parentKey) == "" then id.publicKey else id.parentKey;
      Finish(env, WithSignedKeys(withHd, id.publicKey, parentKey), id)
  }

  /** resolveSigningIdentity. */
  function Resolve(env: Crypto, id: AgentIdentity, rawAuthor: string, ext: Extensions): Option<Resolved> {
    var author := Trim(rawAuthor);
    if !ValidPrivate(env, id) then None
    else if !id.hd then
      if id.author != "" && id.author != author then None
      else Finish(env, WithSignedKeys(ext, id.publicKey, id.publicKey), id)
    else if Trim(id.mnemonic) != "" then ResolveDerived(env, id, author, ext)
    else ResolveKeyFile(env, id, author, ext)
  }

  function PayloadOf(msg: Message, signer: Signer): Payload {
    Payload(msg.fields, Trim(msg.author), signer, msg.extensions)
  }

  /** BuildSignedOrigin and the message that carries its results; None is any of its errors. */
  function SignMessage(env: Crypto, msg: Message, id: AgentIdentity): Option<Message> {
    match Resolve(env, id, msg.author, msg.extensions)
    case None => None
    case Some(r) =>
      if !IsKey(r.id.privateKey, 64) then None
      else
        var signer := Signer(Trim(msg.author), Trim(r.id.agentId), ED25519, Norm(r.id.publicKey));
        var signed := msg.(extensions := r.extensions);
        var signature := Sign(Norm(r.id.privateKey), PayloadOf(signed, signer));
        Some(signed.(origin := Some(Origin(signer, signature))))
  }

  // ---------- Validating ----------

  /** stringFromMap. */
  function StringFrom(ext: Extensions, key: Key): Option<string> {
    if key in ext && ext[key].Str? && Trim(ext[key].text) != "" then Some(Trim(ext[key].text)) else None
  }

  /** validateSignedKeyMetadata and validateLegacySignedKeyMetadata. */
  predicate SignedKeysOk(ext: Extensions, originKey: string) {
    match (StringFrom(ext, OriginKey), StringFrom(ext, ParentKey))
    case (Some(o), Some(p)) => Norm(o) == Norm(originKey) && IsKey(o, 32) && IsKey(p, 32)
    case (None, None) =>
      IsKey(originKey, 32)
      && (StringFrom(ext, HdParentKey).Some? ==> IsKey(StringFrom(ext, HdParentKey).value, 32))
    case _ => false
  }

  /** validateHDOriginMetadata. */
  predicate HdOriginOk(env: Crypto, author: string, ext: Extensions) {
    match (StringFrom(ext, HdParent), StringFrom(ext, HdParentKey), StringFrom(ext, HdPath))
    case (None, None, None) => true
    case (Some(parent), Some(key), Some(path)) =>
      && RootOf(author).Some?
      && RootOf(author).value != Trim(author)
      && Trim(parent) == RootOf(author).value
      && IsKey(key, 32)
      && ParsePath(path).Some?
      && PathOf(env.mac, author) == Some(Trim(path))
    case _ => false
  }

  /** signedMessageRequiresDelegation. */
  predicate RequiresDelegation(ext: Extensions, originKey: string) {
    || (StringFrom(ext, ParentKey).Some? && Norm(StringFrom(ext, ParentKey).value) != Norm(originKey))
    || StringFrom(ext, HdParent).Some? || StringFrom(ext, HdParentKey).Some? || StringFrom(ext, HdPath).Some?
  }

  /** WriterDelegationFromAny, for the forms a loaded message can hold. */
  function ReadProof(env: Env, v: Value): Option<Delegation> {
    match v
    case Proof(d) => if ValidDelegation(env.crypto, d) then Some(d) else None
    case Str(text) =>
      if env.parseProof(text).Some? && ValidDelegation(env.crypto, env.parseProof(text).value) then env.parseProof(text)
      else None
    case Other(_) => None
  }

  /** validateHDDelegationMetadata. */
  predicate DelegationOk(env: Env, ext: Extensions, originKey: string) {
    RequiresDelegation(ext, originKey) ==>
      && StringFrom(ext, ParentKey).Some?
      && HdDelegation in ext
      && ReadProof(env, ext[HdDelegation]).Some?
      && var d := ReadProof(env, ext[HdDelegation]).value;
      && ValidDelegation(env.crypto, d)
      && Norm(d.terms.childKey) == Norm(originKey)
      && Norm(d.terms.parentKey) == Norm(StringFrom(ext, ParentKey).value)
      && (StringFrom(ext, HdParentKey).Some? ==> Norm(StringFrom(ext, HdParentKey).value) == Norm(d.terms.parentKey))
  }

  /** ValidateMessageOrigin and ValidateSignedMetadata. */
  predicate ValidOrigin(env: Env, msg: Message) {
    msg.origin.Some? ==>
      var given := msg.origin.value.signer;
      var signer := Signer(Trim(given.author), Trim(given.agentId), Trim(given.keyType), Norm(given.key));
      && signer.author != ""
      && signer.author == Trim(msg.author)
      && signer.agentId != ""
      && signer.keyType == ED25519
      && IsKey(signer.key, 32)
      && Verifies(env.crypto, signer.key, PayloadOf(msg, signer), msg.origin.value.signature)
      && SignedKeysOk(msg.extensions, signer.key)
      && HdOriginOk(env.crypto, Trim(msg.author), msg.extensions)
      && DelegationOk(env, msg.extensions, signer.key)
  }
}
