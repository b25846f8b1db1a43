/** Exactly which identity files sign, and what they write into a message
    (internal/aip2p/identity.go:270-349, 410-522, 582-621). */
module SigningExactly {
  import opened Delegations
  import opened HDPaths
  import opened Identity
  import opened IdentitySigning
  import opened Options
  import opened OriginRefusals
  import opened Text

  /** The part of an identity file every kind of identity shares. */
  predicate Named(env: Crypto, id: AgentIdentity) {
    Trim(id.agentId) != "" && Trim(id.keyType) == "ed25519" && env.isTime(Trim(id.createdAt))
  }

  /** The private key is 64 bytes in hex and ends in the public key, which is 32 bytes in hex. */
  predicate HoldsKeyPair(id: AgentIdentity) {
    Hex(Norm(id.publicKey), 64) && Hex(Norm(id.privateKey), 128) && Norm(id.privateKey)[64..] == Norm(id.publicKey)
  }

  /** A parent is named whose key differs from the identity's own. */
  predicate HasParent(id: AgentIdentity) {
    Trim(id.parent) != "" && Norm(id.parentKey) != "" && Norm(id.parentKey) != Norm(id.publicKey)
  }

  lemma ParentsNeedDelegation(id: AgentIdentity)
    ensures NeedsDelegation(id) <==> HasParent(id)
  {
    NormBlank(id.parentKey);
    hide Trim, Norm;
  }

  lemma BlankKeys(id: AgentIdentity)
    ensures Norm(id.privateKey) == "" <==> Trim(id.privateKey) == ""
    ensures Norm(id.parentKey) == "" <==> Trim(id.parentKey) == ""
    ensures !Hex("", 128)
  {
    NormBlank(id.privateKey);
    NormBlank(id.parentKey);
  }

  /** A plain identity signs exactly if its file is complete, its keys belong together, it names no other author, and, should it
      name a parent, it holds a valid delegation. */
  lemma PlainSignsExactly(env: Crypto, msg: Message, id: AgentIdentity)
    requires !id.hd
    ensures SignMessage(env, msg, id).Some? <==>
              && Named(env, id) && HoldsKeyPair(id)
              && (id.author == "" || id.author == Trim(msg.author))
              && (HasParent(id) ==> id.delegation.Some? && ValidDelegation(env, id.delegation.value))
  {
    KeysAreHex(id.publicKey, 32);
    KeysAreHex(id.privateKey, 64);
    ParentsNeedDelegation(id);
    BlankKeys(id);
    SignsWhenResolved(env, msg, id);
    hide Trim, Norm, ValidDelegation, WithSignedKeys, Hex, IsKey, SignMessage, NormalizeDelegation, NeedsDelegation, HasParent;
  }

  /** What an HD identity file without a mnemonic must hold to be valid. */
  predicate KeyFileComplete(env: Crypto, id: AgentIdentity) {
    && Named(env, id) && Trim(id.author) != "" && ParsePath(id.path).Some?
    && Hex(Norm(id.publicKey), 64)
    && (Trim(id.parent) != "" && Norm(id.parentKey) != "" ==> Hex(Norm(id.parentKey), 64))
    && (id.delegation.Some? ==>
          && ValidDelegation(env, id.delegation.value)
          && Norm(id.delegation.value.terms.childKey) == Norm(id.publicKey)
          && (Norm(id.parentKey) != "" ==> Norm(id.delegation.value.terms.parentKey) == Norm(id.parentKey)))
  }

  /** An HD identity file without a mnemonic signs exactly if it is complete, its keys belong together, it names no other
      author, and, should it name a parent with another key, it holds a delegation. */
  lemma KeyFileSignsExactly(env: Crypto, msg: Message, id: AgentIdentity)
    requires id.hd && Trim(id.mnemonic) == ""
    ensures SignMessage(env, msg, id).Some? <==>
              && KeyFileComplete(env, id) && HoldsKeyPair(id)
              && (id.author == "" || id.author == Trim(msg.author))
              && (HasParent(id) ==> id.delegation.Some?)
  {
    hide Trim, Norm, ValidDelegation, WithSignedKeys, Hex, IsKey, SignMessage, NormalizeDelegation, NeedsDelegation, HasParent,
         ParsePath;
    KeysAreHex(id.publicKey, 32);
    KeysAreHex(id.privateKey, 64);
    KeysAreHex(id.parentKey, 32);
    ParentsNeedDelegation(id);
    BlankKeys(id);
    PathIsText(id.path);
    SignsWhenResolved(env, msg, id);
  }

  lemma PathIsText(path: string)
    ensures ParsePath(path).Some? ==> Trim(path) != ""
  {
    hide Trim, Split, ParseSegments;
  }

  /** An identity with a mnemonic is valid exactly if its file is complete and every key it stores is the one its mnemonic gives
      at its path; the stored master key counts only without a parent. */
  lemma MnemonicIsValidExactly(env: Crypto, id: AgentIdentity)
    requires id.hd && Trim(id.mnemonic) != ""
    ensures Valid(env, id) <==>
              && Named(env, id) && Trim(id.author) != "" && ParsePath(id.path).Some?
              && env.seedOf(Trim(id.mnemonic)).Some?
              && var seed := env.derive(env.seedOf(Trim(id.mnemonic)).value, ParsePath(id.path).value);
              && (Norm(id.publicKey) != "" ==> Norm(id.publicKey) == env.publicOf(seed))
              && (Norm(id.privateKey) != "" ==> Norm(id.privateKey) == seed + env.publicOf(seed))
              && (Norm(id.masterKey) != "" && Trim(id.parent) == "" ==> Norm(id.masterKey) == env.publicOf(seed))
  {
    PathIsText(id.path);
    hide Trim, Norm, ParsePath;
  }

  /** The key an identity signs delegations with: the stored one, or else the one of its mnemonic. */
  lemma SigningKeyExactly(env: Crypto, id: AgentIdentity)
    ensures SigningKey(env, id).Some? ==> ValidPrivate(env, id) && Hex(SigningKey(env, id).value, 128)
    ensures ValidPrivate(env, id) && Norm(id.privateKey) != "" ==>
              SigningKey(env, id) == if Hex(Norm(id.privateKey), 128) then Some(Norm(id.privateKey)) else None
    ensures ValidPrivate(env, id) && Norm(id.privateKey) == "" && id.hd && DeriveKeys(env, id.mnemonic, id.path).Some? ==>
              var private := DeriveKeys(env, id.mnemonic, id.path).value.private;
              Trim(id.mnemonic) != "" && SigningKey(env, id) == if Hex(Norm(private), 128) then Some(Norm(private)) else None
    ensures ValidPrivate(env, id) <==> Valid(env, id) && (Norm(id.privateKey) != "" || Trim(id.mnemonic) != "")
  {
    BlankKeys(id);
    KeysAreHex(id.privateKey, 64);
    if DeriveKeys(env, id.mnemonic, id.path).Some? {
      KeysAreHex(DeriveKeys(env, id.mnemonic, id.path).value.private, 64);
    }
    hide Trim, Norm, Valid, ParsePath, Hex, IsKey;
  }

  // ---------- What signing writes ----------

  /** The two signed keys are written lower-cased and trimmed when they are not blank, over whatever stood there; nothing else
      changes. */
  lemma SignedKeysAreWritten(ext: Extensions, originKey: string, parentKey: string, k: Key)
    ensures var e := WithSignedKeys(ext, originKey, parentKey);
            && (k == OriginKey && Norm(originKey) != "" ==> k in e && e[k] == Str(Norm(originKey)))
            && (k == ParentKey && Norm(parentKey) != "" ==> k in e && e[k] == Str(Norm(parentKey)))
            && ((k != OriginKey || Norm(originKey) == "") && (k != ParentKey || Norm(parentKey) == "") ==>
                  (k in e <==> k in ext) && (k in ext ==> e[k] == ext[k]))
  {
    hide Norm;
  }

  /** applyDelegationMetadata is the last thing done to the extensions, for every kind of identity. */
  lemma ResolveFinishes(env: Crypto, id: AgentIdentity, author: string, ext: Extensions) returns (w: Extensions)
    requires Resolve(env, id, author, ext).Some?
    ensures Resolve(env, id, author, ext) == Finish(env, w, Resolve(env, id, author, ext).value.id)
  {
    hide Trim, Norm, ValidDelegation, WithSignedKeys, WithHdOrigin, NormalizeDelegation, NeedsDelegation, Valid, WithDelegation,
         DeriveKeys, ChildDelegation, RootOf, PathOf, ValidPrivate, DerivedSigner, IsKey, ResolveDerived;
    if !id.hd {
      w := WithSignedKeys(ext, id.publicKey, id.publicKey);
    } else if Trim(id.mnemonic) != "" {
      var a := Trim(author);
      ResolveDerivedIs(env, id, a, ext);
      if a == id.author {
        w := WithSignedKeys(ext, DerivedPair(env, id, a).public, id.publicKey);
      } else {
        w := ChildKeys(env, id, a, ext);
      }
    } else {
      w := WithSignedKeys(FileHd(ext, id), id.publicKey, FileParentKey(id));
      FileExtensions(ext, id);
    }
  }

  lemma FileExtensions(ext: Extensions, id: AgentIdentity)
    ensures id.parent != "" && id.parentKey != "" ==>
              FileHd(ext, id) == ext[HdParent := Str(id.parent)][HdParentKey := Str(id.parentKey)][HdPath := Str(id.path)]
  {}

  lemma FinishWrites(env: Crypto, w: Extensions, id: AgentIdentity)
    requires Finish(env, w, id).Some?
    ensures var e := Finish(env, w, id).value.extensions;
            && Finish(env, w, id).value.id == id
            && (HdDelegation in e <==> HasParent(id))
            && (HasParent(id) ==>
                  && id.delegation.Some? && ValidDelegation(env, id.delegation.value)
                  && e[HdDelegation] == Proof(NormalizeDelegation(id.delegation.value)))
  {
    ParentsNeedDelegation(id);
    hide Trim, Norm, ValidDelegation, NormalizeDelegation, NeedsDelegation, HasParent;
  }

  /** A signed message carries a delegation exactly if its signer names a parent with another key; it is the signer's,
      normalized, and valid. */
  lemma SignedDelegation(env: Crypto, msg: Message, id: AgentIdentity)
    requires SignMessage(env, msg, id).Some?
    ensures var signed, signer := SignMessage(env, msg, id).value, Resolve(env, id, msg.author, msg.extensions).value.id;
            && (HdDelegation in signed.extensions <==> HasParent(signer))
            && (HasParent(signer) ==>
                  && signer.delegation.Some? && ValidDelegation(env, signer.delegation.value)
                  && signed.extensions[HdDelegation] == Proof(NormalizeDelegation(signer.delegation.value)))
            && signed.fields == msg.fields && signed.author == msg.author && signed.origin.Some?
  {
    hide Trim, Norm, ValidDelegation, NormalizeDelegation, HasParent, Resolve, Finish, IsKey;
    var w := ResolveFinishes(env, id, msg.author, msg.extensions);
    FinishWrites(env, w, Resolve(env, id, msg.author, msg.extensions).value.id);
  }
}
