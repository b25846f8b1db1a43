/** Identity keys as text, symbolic signatures and writer delegations
    (internal/aip2p/delegation.go, internal/aip2p/identity.go:776-785).

    A private key is the hex text of its 32-byte seed followed by its 32-byte public half. A signature is a symbolic
    term made of both halves and the signed content; it verifies for a public key exactly when that key is the
    public half and is the key the seed generates. */
module Delegations {
  import opened HDPaths
  import opened Options
  import opened Text

  const ED25519 := "ed25519"
  const KIND := "writer_delegation"
  const VERSION := "aip2p-delegation/0.1"

  /** What the identity code takes from cryptography, BIP-39 and package time. */
  datatype Crypto = Crypto(
    mac: string -> Words,
    seedOf: string -> Option<string>,
    derive: (string, seq<nat>) -> string,
    publicOf: string -> string,
    isTime: string -> bool,
    utc: string -> string)

  predicate LowerHex(s: string, bytes: nat) {
    |s| == 2 * bytes && forall k :: 0 <= k < |s| ==> IsLowerHex(s[k])
  }

  /** Derived seeds and generated public keys are 32 bytes in lower-case hex; a time rewritten in UTC is again a time. */
  ghost predicate CryptoOk(env: Crypto) {
    && MacOk(env.mac)
    && (forall seed, indexes :: LowerHex(env.derive(seed, indexes), 32))
    && (forall seed :: LowerHex(env.publicOf(seed), 32))
    && (forall t :: env.isTime(t) ==> env.isTime(env.utc(t)) && Trim(env.utc(t)) == env.utc(t) != "")
  }

  /** decodeHexKey succeeds. */
  predicate IsKey(raw: string, bytes: nat) {
    LowerHex(Norm(raw), bytes)
  }

  lemma HexIsNormal(s: string, bytes: nat)
    requires LowerHex(s, bytes)
    ensures Norm(s) == s && Trim(s) == s
  {
    assert SpaceAt(s) == 0 && SpaceBefore(s) == 0;
    assert Lower(s) == s;
  }

  datatype Signature<T> = Garbled | Signed(seed: string, key: string, content: T)

  predicate Verifies<T(==)>(env: Crypto, key: string, content: T, signature: Signature<T>) {
    signature.Signed? && signature.content == content && signature.key == key && env.publicOf(signature.seed) == key
  }

  /** ed25519.Sign with a private key in lower-case hex. */
  function Sign<T>(private: string, content: T): Signature<T>
    requires LowerHex(private, 64)
  {
    Signed(private[..64], private[64..], content)
  }

  datatype KeyPair = KeyPair(public: string, private: string)

  ghost predicate ProperPair(env: Crypto, pair: KeyPair) {
    LowerHex(pair.public, 32) && LowerHex(pair.private, 64)
    && pair.private[64..] == pair.public == env.publicOf(pair.private[..64])
  }

  /** The key pair of a 32-byte seed (ed25519.NewKeyFromSeed). */
  function PairOf(env: Crypto, seed: string): KeyPair {
    KeyPair(env.publicOf(seed), seed + env.publicOf(seed))
  }

  lemma PairIsProper(env: Crypto, seed: string)
    requires CryptoOk(env) && LowerHex(seed, 32)
    ensures ProperPair(env, PairOf(env, seed))
  {
    var public := env.publicOf(seed);
    assert (seed + public)[..64] == seed && (seed + public)[64..] == public;
  }

  /** Keys in lower-case hex are read back as they are. */
  lemma ProperPairReads(env: Crypto, pair: KeyPair)
    requires ProperPair(env, pair)
    ensures Norm(pair.public) == Trim(pair.public) == pair.public != "" && IsKey(pair.public, 32)
    ensures Norm(pair.private) == Trim(pair.private) == pair.private != "" && IsKey(pair.private, 64)
  {
    HexIsNormal(pair.public, 32);
    HexIsNormal(pair.private, 64);
    hide Trim, Norm;
  }

  /** MnemonicToSeed and DeriveHDKey. */
  function DeriveKeys(env: Crypto, mnemonic: string, path: string): Option<KeyPair> {
    if Trim(mnemonic) == "" || env.seedOf(Trim(mnemonic)).None? || ParsePath(path).None? then None
    else
      var seed := env.derive(env.seedOf(Trim(mnemonic)).value, ParsePath(path).value);
      Some(PairOf(env, seed))
  }

  lemma DerivedPairIsProper(env: Crypto, mnemonic: string, path: string)
    requires CryptoOk(env) && DeriveKeys(env, mnemonic, path).Some?
    ensures ProperPair(env, DeriveKeys(env, mnemonic, path).value)
  {
    hide Trim, ParsePath;
    PairIsProper(env, env.derive(env.seedOf(Trim(mnemonic)).value, ParsePath(path).value));
  }

  // ---------- Writer delegations ----------

  datatype Terms = Terms(
    kind: string, version: string,
    parentAgent: string, parentKeyType: string, parentKey: string,
    childAgent: string, childKeyType: string, childKey: string,
    scopes: seq<string>, createdAt: string, expiresAt: string)

  datatype Delegation = Delegation(terms: Terms, signature: Signature<Terms>)

  /** uniqueDelegationScopes as a value. */
  function UniqueScopes(items: seq<string>): seq<string> {
    if items == [] then []
    else
      var init := UniqueScopes(items[..|items| - 1]);
      var key := Norm(items[|items| - 1]);
      if key == "" || key in init then init else init + [key]
  }

  method UniqueDelegationScopes(items: seq<string>) returns (out: seq<string>)
    ensures out == UniqueScopes(items)
  {
    hide Norm;
    var seen: set<string> := {};
    out := [];
    for k := 0 to |items|
      invariant out == UniqueScopes(items[..k])
      invariant forall key :: key in seen <==> key in out
    {
      assert items[..k + 1][..k] == items[..k];
      var key := Norm(items[k]);
      if key == "" || key in seen {
        continue;
      }
      seen, out := seen + {key}, out + [key];
    }
    assert items[..|items|] == items;
  }

  predicate CleanScopes(scopes: seq<string>) {
    && (forall k :: 0 <= k < |scopes| ==> scopes[k] != "" && Norm(scopes[k]) == scopes[k])
    && forall j, k :: 0 <= j < k < |scopes| ==> scopes[j] != scopes[k]
  }

  lemma {:induction false} UniqueScopesAreClean(items: seq<string>)
    ensures CleanScopes(UniqueScopes(items))
  {
    hide Norm;
    if items != [] {
      UniqueScopesAreClean(items[..|items| - 1]);
      NormIdempotent(items[|items| - 1]);
    }
  }

  lemma {:induction false} CleanScopesStay(scopes: seq<string>)
    requires CleanScopes(scopes)
    ensures UniqueScopes(scopes) == scopes
  {
    hide Norm;
    if scopes != [] {
      CleanScopesStay(scopes[..|scopes| - 1]);
    }
  }

  function OrElse(s: string, fallback: string): string {
    if s == "" then fallback else s
  }

  /** Normalize, for the fields under the signature. */
  function NormalizeTerms(t: Terms): Terms {
    Terms(
      OrElse(Trim(t.kind), KIND), OrElse(Trim(t.version), VERSION),
      Trim(t.parentAgent), OrElse(Trim(t.parentKeyType), ED25519), Norm(t.parentKey),
      Trim(t.childAgent), OrElse(Trim(t.childKeyType), ED25519), Norm(t.childKey),
      UniqueScopes(t.scopes), Trim(t.createdAt), Trim(t.expiresAt))
  }

  function NormalizeDelegation(d: Delegation): Delegation {
    Delegation(NormalizeTerms(d.terms), d.signature)
  }

  lemma ConstantsAreTrimmed()
    ensures Trim(KIND) == KIND && Trim(VERSION) == VERSION && Trim(ED25519) == ED25519
    ensures Trim("") == ""
  {
    TrimmedStays(KIND);
    TrimmedStays(VERSION);
    TrimmedStays(ED25519);
  }

  lemma TrimmedStays(s: string)
    requires Trimmed(s)
    ensures Trim(s) == s
  {}

  /** Normalizing twice is normalizing once. */
  lemma NormalizeIdempotent(t: Terms)
    ensures NormalizeTerms(NormalizeTerms(t)) == NormalizeTerms(t)
  {
    ConstantsAreTrimmed();
    TrimIsTrimmed(t.kind);
    TrimIsTrimmed(t.version);
    TrimIsTrimmed(t.parentAgent);
    TrimIsTrimmed(t.parentKeyType);
    TrimIsTrimmed(t.childAgent);
    TrimIsTrimmed(t.childKeyType);
    TrimIsTrimmed(t.createdAt);
    TrimIsTrimmed(t.expiresAt);
    NormIdempotent(t.parentKey);
    NormIdempotent(t.childKey);
    UniqueScopesAreClean(t.scopes);
    CleanScopesStay(UniqueScopes(t.scopes));
    hide Trim, Norm, UniqueScopes;
  }

  /** ValidateWriterDelegation. */
  predicate ValidDelegation(env: Crypto, d: Delegation) {
    var t := NormalizeTerms(d.terms);
    && t.kind == KIND
    && t.version == VERSION
    && t.parentKey != "" && t.childKey != ""
    && t.parentKeyType == ED25519 && t.childKeyType == ED25519
    && env.isTime(t.createdAt)
    && (t.expiresAt == "" || env.isTime(t.expiresAt))
    && IsKey(t.parentKey, 32)
    && IsKey(t.childKey, 32)
    && Verifies(env, t.parentKey, t, d.signature)
  }

  lemma NormalizedStaysValid(env: Crypto, d: Delegation)
    ensures ValidDelegation(env, NormalizeDelegation(d)) == ValidDelegation(env, d)
  {
    NormalizeIdempotent(d.terms);
    hide NormalizeTerms, IsKey;
  }
}
