/** The state-changing form of the signing code: the extensions map that its steps fill in place
    (internal/aip2p/identity.go:327-349, 483-614). */
module IdentityBuilder {
  import opened Delegations
  import opened HDPaths
  import opened Identity
  import opened Options
  import opened Text

  /** The copy of the message's extensions that the signing steps write to. */
  class ExtensionMap {
    var entries: Extensions

    /** cloneMap. */
    constructor Clone(ext: Extensions)
      ensures entries == ext
    {
      entries := ext;
    }

    /** applySignedKeyMetadata. */
    method ApplySignedKeyMetadata(originKey: string, parentKey: string)
      modifies this
      ensures entries == WithSignedKeys(old(entries), originKey, parentKey)
    {
      hide Trim, Norm;
      var origin := Norm(originKey);
      if origin != "" {
        entries := entries[OriginKey := Str(origin)];
      }
      var parent := Norm(parentKey);
      if parent != "" {
        entries := entries[ParentKey := Str(parent)];
      }
    }

    /** applyDelegationMetadata; on failure the map is left alone. */
    method ApplyDelegationMetadata(env: Crypto, id: AgentIdentity) returns (ok: bool)
      modifies this
      ensures ok <==> WithDelegation(env, old(entries), id).Some?
      ensures entries == if ok then WithDelegation(env, old(entries), id).value else old(entries)
    {
      hide Trim, Norm, ValidDelegation, NormalizeDelegation;
      if !NeedsDelegation(id) {
        entries := entries - {HdDelegation};
        return true;
      }
      if id.delegation.None? || !ValidDelegation(env, id.delegation.value) {
        return false;
      }
      entries := entries[HdDelegation := Proof(NormalizeDelegation(id.delegation.value))];
      return true;
    }
  }

  method DeriveSigningIdentity(env: Crypto, id: AgentIdentity, author: string, ext: Extensions)
    returns (r: Option<Resolved>)
    ensures r == ResolveDerived(env, id, author, ext)
  {
    hide Trim, Norm, ValidDelegation, NormalizeDelegation, RootOf, PathOf, DeriveKeys, WithSignedKeys, WithDelegation,
         ChildDelegation;
    if RootOf(author) != Some(Trim(id.author)) {
      return None;
    }
    var path := PathOf(env.mac, author);
    if path.None? {
      return None;
    }
    var pair := DeriveKeys(env, id.mnemonic, path.value);
    if pair.None? {
      return None;
    }
    var result := new ExtensionMap.Clone(ext);
    if author != id.author {
      result.entries := result.entries[HdParent := Str(id.author)];
      result.entries := result.entries[HdParentKey := Str(id.publicKey)];
      result.entries := result.entries[HdPath := Str(path.value)];
    }
    result.ApplySignedKeyMetadata(pair.value.public, id.publicKey);
    var signer := DerivedSigner(id, author, path.value, pair.value);
    if author != id.author {
      var delegation := ChildDelegation(env, id, signer, env.utc(Trim(id.createdAt)));
      if delegation.None? {
        return None;
      }
      signer := signer.(delegation := delegation);
    }
    var ok := result.ApplyDelegationMetadata(env, signer);
    if !ok {
      return None;
    }
    return Some(Resolved(signer, result.entries));
  }

  method ResolveSigningIdentity(env: Crypto, id: AgentIdentity, rawAuthor: string, ext: Extensions)
    returns (r: Option<Resolved>)
    ensures r == Resolve(env, id, rawAuthor, ext)
  {
    hide Trim, Norm, ValidPrivate, WithSignedKeys, WithDelegation, ResolveDerived;
    if !ValidPrivate(env, id) {
      return None;
    }
    var author := Trim(rawAuthor);
    if id.hd && Trim(id.mnemonic) != "" {
      r := DeriveSigningIdentity(env, id, author, ext);
      return;
    }
    if id.author != "" && id.author != author {
      return None;
    }
    var result := new ExtensionMap.Clone(ext);
    var parentKey := id.publicKey;
    if id.hd {
      if id.parent != "" {
        result.entries := result.entries[HdParent := Str(id.parent)];
        if id.parentKey != "" {
          result.entries := result.entries[HdParentKey := Str(id.parentKey)];
        }
        result.entries := result.entries[HdPath := Str(id.path)];
      }
      if Trim(id.parentKey) != "" {
        parentKey := id.parentKey;
      }
    }
    result.ApplySignedKeyMetadata(id.publicKey, parentKey);
    var ok := result.ApplyDelegationMetadata(env, id);
    if !ok {
      return None;
    }
    return Some(Resolved(id, result.entries));
  }

  method BuildSignedOrigin(env: Crypto, msg: Message, id: AgentIdentity) returns (signed: Option<Message>)
    ensures signed == SignMessage(env, msg, id)
  {
    hide Trim, Norm, Resolve, IsKey;
    var r := ResolveSigningIdentity(env, id, msg.author, msg.extensions);
    if r.None? || !IsKey(r.value.id.privateKey, 64) {
      return None;
    }
    var signer := Signer(Trim(msg.author), Trim(r.value.id.agentId), ED25519, Norm(r.value.id.publicKey));
    var carried := msg.(extensions := r.value.extensions);
    KeyLength(r.value.id.privateKey);
    var signature := Sign(Norm(r.value.id.privateKey), PayloadOf(carried, signer));
    return Some(carried.(origin := Some(Origin(signer, signature))));
  }

  lemma KeyLength(raw: string)
    ensures IsKey(raw, 64) ==> LowerHex(Norm(raw), 64)
  {
    hide Norm, LowerHex;
  }
}
