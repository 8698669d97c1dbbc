/**
 * The contract's record types, field for field, and the platform types
 * they are built from.
 */
module Structures {
  import opened Wrappers
  import opened Bytes

  /** A `ManagedBuffer`: an arbitrary byte string. */
  type Buffer = seq<u8>

  /** A `ManagedAddress`: always 32 bytes. */
  type Address = a: seq<u8> | |a| == 32 witness seq(32, i => 0)

  /** A SHA-256 digest, `ManagedByteArray<M, 32>`. */
  type Digest = d: seq<u8> | |d| == 32 witness seq(32, i => 0)

  /**
   * SHA-256 as the platform computes it. The model treats it as an arbitrary
   * function into 32-byte digests: nothing is assumed about collisions.
   */
  type HashFn = seq<u8> -> Digest

  datatype VerificationMethod = VerificationMethod(
    id: Buffer,
    typ: Buffer,
    controller: Address,
    publicKeyMultibase: Buffer)

  datatype Service = Service(id: Buffer, typ: Buffer, endpoint: Buffer)

  datatype DidDocument = DidDocument(
    did: Buffer,
    controller: Address,
    verificationMethods: seq<VerificationMethod>,
    authentication: seq<Buffer>,
    assertionMethod: seq<Buffer>,
    keyAgreement: seq<Buffer>,
    serviceEndpoints: seq<Service>,
    created: u64,
    updated: u64)

  datatype Claim = Claim(attribute: Buffer, value: Buffer, hash: Buffer)

  datatype Claims = Claims(data: seq<Claim>, merkleRoot: Buffer)

  datatype CredentialProof = CredentialProof(
    typ: Buffer,
    created: u64,
    verificationMethod: Buffer,
    signature: Buffer)

  datatype Credential = Credential(
    id: Buffer,
    issuer: Address,
    holder: Address,
    credentialType: seq<Buffer>,
    schemaId: Buffer,
    contentHash: Buffer,
    claims: Claims,
    issuanceDate: u64,
    expirationDate: Option<u64>,
    revoked: bool,
    delegationId: Option<u64>,
    encryptionKey: Buffer,
    proof: CredentialProof)

  datatype SchemaAttribute = SchemaAttribute(
    name: Buffer,
    attributeType: Buffer,
    required: bool,
    dataType: Buffer)

  datatype CredentialSchema = CredentialSchema(
    id: Buffer,
    typ: Buffer,
    attributes: seq<SchemaAttribute>,
    issuer: Address,
    version: Buffer)

  datatype Delegation = Delegation(
    id: u64,
    delegator: Address,
    delegate: Address,
    credentialTypes: seq<Buffer>,
    validUntil: u64,
    revoked: bool)
}
