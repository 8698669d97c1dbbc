/**
 * The identifier and proof engine of `src/helpers.rs`: DID and schema-id
 * derivation, credential proofs and the composite credential check.
 */
module Helpers {
  import opened Wrappers
  import opened Bytes
  import opened Structures
  import opened Base16

  /** The method prefix the contract puts in front of every DID (14 bytes). */
  const DID_PREFIX: seq<u8> := Ascii("did:multiversx")

  /** The fixed tag stored in every proof's `type_`. */
  const PROOF_TYPE: seq<u8> := Ascii("ProofType")

  const COLON: u8 := ':' as int

  // ---------------------------------------------------------------- identifiers

  /** `generate_did`: the prefix followed directly by the hex of the address digest. */
  function GenerateDid(sha256: HashFn, address: Address): (did: Buffer)
    ensures |did| == 78
    ensures did[..14] == DID_PREFIX && did[14..] == Hex(sha256(address))
  {
    DID_PREFIX + Hex(sha256(address))
  }

  /**
   * The only colon in a DID is the one inside the prefix: nothing separates
   * the method name from the hash, and the hash part is all `0-9A-F`.
   */
  lemma DidSeparators(sha256: HashFn, address: Address)
    ensures var did := GenerateDid(sha256, address);
      && did[3] == COLON
      && (forall i | 0 <= i < |did| && i != 3 :: did[i] != COLON)
      && (forall i | 14 <= i < 78 :: IsHexChar(did[i]))
  {
    var did := GenerateDid(sha256, address);
    HexAlphabet(sha256(address));
    forall i | 14 <= i < 78 ensures IsHexChar(did[i]) {
      assert did[i] == Hex(sha256(address))[i - 14];
    }
    assert "did:multiversx"[3] == ':';
    forall i | 0 <= i < 14 && i != 3 ensures did[i] != COLON {
      assert did[i] == DID_PREFIX[i];
    }
  }

  /** Two addresses get the same DID exactly when their digests agree. */
  lemma DidDeterminedByDigest(sha256: HashFn, a: Address, b: Address)
    ensures GenerateDid(sha256, a) == GenerateDid(sha256, b) <==> sha256(a) == sha256(b)
  {
    var da, db := GenerateDid(sha256, a), GenerateDid(sha256, b);
    if da == db {
      assert da[14..] == db[14..];
      HexInjective(sha256(a), sha256(b));
    }
  }

  /** `generate_schema_id`: the hex of the digest of `type_ ++ version`. */
  function GenerateSchemaId(sha256: HashFn, typ: Buffer, version: Buffer): (id: Buffer)
    ensures |id| == 64 && id == Hex(sha256(typ + version))
  {
    Hex(sha256(typ + version))
  }

  /** A schema id is 64 characters of `0-9A-F`. */
  lemma SchemaIdIsHex(sha256: HashFn, typ: Buffer, version: Buffer)
    ensures IsHexText(GenerateSchemaId(sha256, typ, version))
  {
    HexAlphabet(sha256(typ + version));
  }

  /**
   * The id sees only the concatenation, so moving bytes between the type and
   * the version yields the same id: ("ab", "c") collides with ("a", "bc").
   */
  lemma SchemaIdSeesOnlyConcatenation(sha256: HashFn, t1: Buffer, v1: Buffer, t2: Buffer, v2: Buffer)
    requires t1 + v1 == t2 + v2
    ensures GenerateSchemaId(sha256, t1, v1) == GenerateSchemaId(sha256, t2, v2)
  {
  }

  lemma SchemaIdSplitCollision(sha256: HashFn)
    ensures GenerateSchemaId(sha256, Ascii("ab"), Ascii("c")) == GenerateSchemaId(sha256, Ascii("a"), Ascii("bc"))
  {
    assert Ascii("ab") + Ascii("c") == Ascii("a") + Ascii("bc");
  }

  // ---------------------------------------------------------------- proofs

  /** The bytes `generate_credential_proof` hashes. */
  function ProofData(issuer: Address, holder: Address, merkleRoot: Buffer, created: u64): seq<u8> {
    issuer + holder + merkleRoot + Be8(created)
  }

  /**
   * Addresses and the timestamp have fixed widths, so the hashed bytes
   * determine every input of the proof.
   */
  lemma ProofDataInjective(
    i1: Address, h1: Address, r1: Buffer, c1: u64,
    i2: Address, h2: Address, r2: Buffer, c2: u64)
    requires ProofData(i1, h1, r1, c1) == ProofData(i2, h2, r2, c2)
    ensures i1 == i2 && h1 == h2 && r1 == r2 && c1 == c2
  {
    var d := ProofData(i1, h1, r1, c1);
    var n := |d|;
    assert |r1| == |r2|;
    assert i1 == d[..32] == i2;
    assert h1 == d[32..64] == h2;
    assert r1 == d[64..n - 8] == r2;
    assert Be8(c1) == d[n - 8..] == Be8(c2);
    Be8Injective(c1, c2);
  }

  /** `generate_credential_proof`: builds the data by successive appends, then hashes it. */
  method GenerateCredentialProof(
    sha256: HashFn, issuer: Address, holder: Address, merkleRoot: Buffer, created: u64)
    returns (proof: CredentialProof)
    ensures proof.typ == PROOF_TYPE && proof.created == created && proof.verificationMethod == issuer
    ensures proof.signature == Hex(sha256(ProofData(issuer, holder, merkleRoot, created)))
    ensures |proof.signature| == 64 && IsHexText(proof.signature)
  {
    var data: seq<u8> := [];
    data := data + issuer;
    data := data + holder;
    data := data + merkleRoot;
    data := data + Be8(created);
    assert data == ProofData(issuer, holder, merkleRoot, created);
    var signatureArr := sha256(data);
    var signature := ConvertToHex(signatureArr);
    proof := CredentialProof(PROOF_TYPE, created, issuer, signature);
  }

  /** The bytes `verify_credential_proof` assembles: issuer, holder, `proof.created`. */
  function VerificationData(credential: Credential): seq<u8> {
    credential.issuer + credential.holder + Be8(credential.proof.created)
  }

  /**
   * The bytes checked on verification leave out the content hash, so they
   * differ from the bytes that were hashed at issuance whenever that hash is
   * not empty.
   */
  lemma VerificationDataOmitsContentHash(credential: Credential)
    requires credential.contentHash != []
    ensures VerificationData(credential)
        != ProofData(credential.issuer, credential.holder, credential.contentHash, credential.proof.created)
  {
  }

  /**
   * The platform's `verify_bls(key, message, signature)`, seen from the
   * contract: whether the call returns normally (`true`) or aborts the
   * transaction (`false`). Whatever else the call computes is not used.
   */
  type BlsCall = (Buffer, seq<u8>, Buffer) -> bool

  /**
   * `verify_credential_proof`: the result of `verify_bls` is not used and the
   * function answers `true` whenever the call returns; `None` is the abort
   * of the transaction when it does not.
   */
  function VerifyCredentialProof(verifyBls: BlsCall, credential: Credential): (valid: Option<bool>)
    ensures valid.Some? <==>
      verifyBls(credential.encryptionKey, VerificationData(credential), credential.proof.signature)
    ensures valid != Some(false)
  {
    if verifyBls(credential.encryptionKey, VerificationData(credential), credential.proof.signature)
    then Some(true) else None
  }

  datatype VerificationError = Revoked | Expired | InvalidProof | SignatureCheckAborted

  /** `verify_credential` at block time `now`. */
  function VerifyCredential(verifyBls: BlsCall, credential: Credential, now: u64): (r: Outcome<VerificationError>)
    ensures r == Pass <==>
      && !credential.revoked
      && (credential.expirationDate.None? || now <= credential.expirationDate.value)
      && verifyBls(credential.encryptionKey, VerificationData(credential), credential.proof.signature)
    ensures credential.revoked ==> r == Fail(Revoked)
    ensures !credential.revoked && credential.expirationDate.Some? && now > credential.expirationDate.value
      ==> r == Fail(Expired)
    ensures !credential.revoked && (credential.expirationDate.None? || now <= credential.expirationDate.value)
      && !verifyBls(credential.encryptionKey, VerificationData(credential), credential.proof.signature)
      ==> r == Fail(SignatureCheckAborted)
    ensures r != Fail(InvalidProof)
  {
    if credential.revoked then Fail(Revoked)
    else if credential.expirationDate.Some? && now > credential.expirationDate.value then Fail(Expired)
    else match VerifyCredentialProof(verifyBls, credential)
      case None => Fail(SignatureCheckAborted)
      case Some(valid) => if !valid then Fail(InvalidProof) else Pass
  }

  /**
   * The proof matters only through whether the platform call returns: two
   * proofs on which it returns get the same verdict, however the signatures
   * differ.
   */
  lemma VerifyCredentialIgnoresProof(verifyBls: BlsCall, credential: Credential, forged: CredentialProof, now: u64)
    requires verifyBls(credential.encryptionKey, VerificationData(credential), credential.proof.signature)
    requires var tampered := credential.(proof := forged);
      verifyBls(tampered.encryptionKey, VerificationData(tampered), forged.signature)
    ensures VerifyCredential(verifyBls, credential.(proof := forged), now) == VerifyCredential(verifyBls, credential, now)
  {
  }

  /**
   * If the platform call never aborts, the verdict is revocation and expiry
   * alone: every unrevoked, unexpired credential passes, whatever its proof.
   */
  lemma VerifyCredentialWhenCallReturns(verifyBls: BlsCall, credential: Credential, now: u64)
    requires forall key, data, signature :: verifyBls(key, data, signature)
    ensures VerifyCredential(verifyBls, credential, now) == Pass <==>
      !credential.revoked && (credential.expirationDate.None? || now <= credential.expirationDate.value)
  {
  }

  /** `revoke_credential`: sets the flag and nothing else. */
  function RevokeCredential(credential: Credential): (r: Credential)
    ensures r.revoked
    ensures r.(revoked := credential.revoked) == credential
  {
    credential.(revoked := true)
  }
}
