# DID and verifiable-credential registry (MultiversX contract) in Dafny

This project models the core of a MultiversX smart contract. The contract is a
registry of decentralised identifiers (DIDs), credential schemas, verifiable
credentials and issuance delegations. The model covers two parts, and proves
properties of both.

- **Helper engine** (`src/helpers.rs`):
  - `convert_to_hex`, the upper-case Base16 encoder of section 8 of RFC 4648;
  - the identifier derivations `generate_did`, `generate_schema_id` and `generate_credential_id`;
  - the proof builder `generate_credential_proof`;
  - the checks `verify_credential`, `verify_credential_proof` and `revoke_credential`;
  - the claim validator `validate_claims_against_schema`, with `is_integer` and `is_boolean`;
  - the delegation authorizer `verify_delegation`.
- **Registry state machine** (`src/did.rs`): the endpoints `createDid`,
  `registerSchema`, `issueCredential`, `delegateCredentialIssuance`,
  `markCredentialForDeletion` and `requestDataDeletion`, plus
  `decode_credential_id`.

Modules, one per concern:

| file | module | contents |
|---|---|---|
| `wrappers.dfy` | `Wrappers` | `Option`, and `Outcome` (pass or fail with an error). |
| `bytes.dfy` | `Bytes` | Bytes, `u64`, and the big-endian encoding `u64::to_be_bytes` with its value. |
| `structures.dfy` | `Structures` | The record types of `src/structures.rs`, field for field. |
| `hex.dfy` | `Base16` | `convert_to_hex` and its inverse. |
| `helpers.dfy` | `Helpers` | DID and schema-id derivation, proofs, credential verification. |
| `validation.dfy` | `Validation` | Schema-driven claim validation and the `i64` parser behind `is_integer`. |
| `delegation.dfy` | `DelegationCheck` | `verify_delegation`. |
| `invariants.dfy` | `Invariants` | The storage invariants, and one lemma per endpoint showing the endpoint keeps them. |
| `registry.dfy` | `Registry` | The contract: a class whose fields are the storage mappers of `src/storage.rs`. |

How the model works:
- SHA-256 is an uninterpreted total function `sha256` from bytes to 32 bytes.
  It is fixed when the contract object is built. It is not assumed to be injective.
- The caller and the block timestamp are method parameters.
- Each endpoint returns `Pass`, or `Fail` with the first failed check.
- A `Fail` leaves every field unchanged, because a failed transaction is rolled back.
- The two events are appended to a log field.

What the code does, which the model follows:
- **DID format.** A DID is `"did:multiversx"` followed directly by the 64 hex
  characters of `sha256(address)`. There is no `:` between the method name
  and the identifier (`Helpers.DidSeparators`). The comment at
  `src/helpers.rs:23` says the format follows the W3C DID syntax; the code does not.
- **Proof check never answers `false`.** `verify_credential_proof` calls
  `verify_bls` as a bare statement and then answers `true` by hand. The
  "Invalid credential proof" branch is therefore unreachable. The only way a
  signature can matter is if the platform call itself aborts the transaction.
  The call is a parameter saying whether it returns normally, so the model
  covers both readings: a call returning a discarded result, and a call that
  aborts on a bad signature (`Helpers.VerifyCredential`,
  `Helpers.VerifyCredentialWhenCallReturns`).
- **Signed bytes differ from checked bytes.** The proof check would assemble
  issuer, holder and `proof.created`. Those are not the bytes signed at
  issuance, which also contain the Merkle root
  (`Helpers.VerificationDataOmitsContentHash`).
- **No delegation check at issuance.** `issue_credential` never calls
  `verify_delegation` and always stores `delegation_id = None`. The
  authorizer is modelled on its own.
- **Missing schema.** A schema id with no stored schema makes `get` fail to
  decode, so the call aborts. The model calls this `SchemaNotFound`.
- **Missing credential.** A credential id with no stored credential aborts
  the same way (`CredentialNotFound`).
- **Marking is unguarded.** `markCredentialForDeletion` has no pause check
  and no check of who calls it. Marking an already revoked credential aborts.
- **Deletion is all or nothing.** `requestDataDeletion` aborts, and rolls
  back, as soon as one of the holder's credentials is already revoked.

State invariants, proved to be kept by every endpoint:
- every DID document sits under the DID derived from its controller, one per account;
- every schema sits under the id derived from its type and version;
- credential and delegation keys lie below their counters;
- each holder list (and each delegate list) is exactly that account's keys, in
  increasing order;
- credentials are never removed, only `revoked` ever changes, and it never goes
  back to `false` (`Invariants.CredentialsEvolve`).

Each endpoint requires and keeps the invariant parts over the storage it
writes. The other parts read only fields outside its `modifies` clause, so
they carry over unchanged.

## Model

| member | source | states |
|---|---|---|
| `Bytes.BigEndian` | src/helpers.rs:90 | The big-endian encoding of a number to a given width has exactly that many bytes. |
| `Bytes.Be8` | src/helpers.rs:90 | `counter.to_be_bytes()` is always eight bytes. |
| `Bytes.BigEndianValue` | src/did.rs:12-15 | The value a big-endian byte string denotes is below 256 to the power of its length. |
| `Bytes.BigEndianRoundTrip` | src/did.rs:12-15 | Decoding the big-endian encoding of any number that fits the width gives the number back. |
| `Bytes.Be8RoundTrip` | src/helpers.rs:90 | Decoding the eight bytes of any `u64` gives that `u64` back. |
| `Bytes.Be8Injective` | src/helpers.rs:90 | Two `u64` values have the same eight bytes exactly when they are equal. |
| `Base16.Hex` | src/helpers.rs:12-18 | The hex text of a byte string is exactly twice as long as the input. |
| `Base16.HexAppend` | src/helpers.rs:14-16 | Encoding a concatenation is the concatenation of the encodings, so bytes are encoded in order. |
| `Base16.HexAlphabet` | src/helpers.rs:15 | Every output character is one of `0-9` and `A-F`. |
| `Base16.HexAt` | src/helpers.rs:14-16 | Byte `k` is spelled by characters `2k` and `2k+1`: high nibble first, then low nibble. |
| `Base16.HexRoundTrip` | src/helpers.rs:12-18 | Reading the hex text back two characters at a time gives the original bytes. |
| `Base16.HexInjective` | src/helpers.rs:12-18 | Two byte strings have the same hex text exactly when they are equal. |
| `Base16.ConvertToHex` | src/helpers.rs:12-18 | The loop's output is the hex text of the digest: 64 characters, all from `0-9A-F`. |
| `Helpers.GenerateDid` | src/helpers.rs:22-37 | A DID is 78 bytes: the 14-byte prefix `did:multiversx`, then the hex of the address digest. |
| `Helpers.DidSeparators` | src/helpers.rs:24-33 | The only `:` in a DID is the one inside `did:multiversx`. Nothing separates prefix and hash, and the hash part is all hex. |
| `Helpers.DidDeterminedByDigest` | src/helpers.rs:22-37 | Two addresses get the same DID exactly when their digests agree. |
| `Helpers.GenerateSchemaId` | src/helpers.rs:39-50 | A schema id is 64 bytes: the hex of the digest of `type_ ++ version`. |
| `Helpers.SchemaIdIsHex` | src/helpers.rs:39-50 | Every character of a schema id is one of `0-9A-F`. |
| `Helpers.SchemaIdSeesOnlyConcatenation` | src/helpers.rs:41-46 | Any two (type, version) pairs with the same concatenation get the same id. |
| `Helpers.SchemaIdSplitCollision` | src/helpers.rs:41-46 | ("ab", "c") and ("a", "bc") get the same schema id. |
| `Helpers.ProofDataInjective` | src/helpers.rs:102-106 | The hashed bytes determine issuer, holder, Merkle root and timestamp, because addresses and the timestamp have fixed widths. |
| `Helpers.GenerateCredentialProof` | src/helpers.rs:95-117 | The proof has type `ProofType`, the given `created`, and the issuer as verification method. Its signature is the hex of `sha256(issuer ++ holder ++ merkle_root ++ be8(created))`: 64 hex characters. |
| `Helpers.VerificationDataOmitsContentHash` | src/helpers.rs:120-127 | When the content hash is not empty, the bytes the proof check assembles differ from the bytes signed at issuance. |
| `Helpers.VerifyCredentialProof` | src/helpers.rs:120-143 | The proof check never answers `false`. It answers `true` exactly when the platform's `verify_bls` call on the encryption key, the assembled bytes and the signature returns, and otherwise aborts. |
| `Helpers.VerifyCredential` | src/helpers.rs:53-78 | Passes exactly when the credential is unrevoked and unexpired and the `verify_bls` call returns. Revocation is reported first, then expiry, only when `now > expiration_date`, strictly, and never with no expiry, then an aborting `verify_bls` call. "Invalid credential proof" is never reported. |
| `Helpers.VerifyCredentialIgnoresProof` | src/helpers.rs:71-74 | Two proofs on which the `verify_bls` call returns give the same verdict, whatever their signatures. |
| `Helpers.VerifyCredentialWhenCallReturns` | src/helpers.rs:133-140 | If `verify_bls` never aborts, a credential passes exactly when it is unrevoked and unexpired. |
| `Helpers.RevokeCredential` | src/helpers.rs:81-83 | The result is revoked and equal to the input in every other field. |
| `Validation.AccumulatePositive` | src/helpers.rs:194-196 | The digit loop for a non-negative number yields the place value of the digits, or fails on a non-digit or on passing `i64::MAX`. |
| `Validation.AccumulateNegative` | src/helpers.rs:194-196 | The digit loop for a negative number yields the negated place value, or fails on a non-digit or on passing `i64::MIN`. |
| `Validation.ParseI64Correct` | src/helpers.rs:194-196 | `parse::<i64>` accepts exactly an optional sign plus one or more digits whose value is in the `i64` range, and returns that value. |
| `Validation.IsIntegerIff` | src/helpers.rs:194-196 | `is_integer` holds exactly for an optional sign, one or more digits, and a value in the `i64` range. |
| `Validation.BooleanIsCaseSensitive` | src/helpers.rs:198-200 | `is_boolean` accepts `true` and `false`, and refuses `True`, `FALSE` and `1`. |
| `Validation.FindClaim` | src/helpers.rs:153 | Finds no claim exactly when no claim has the name; a claim found is in the list and has the name. |
| `Validation.FindClaimFirst` | src/helpers.rs:153 | The claim found is the first one with the name. |
| `Validation.CheckAttribute` | src/helpers.rs:155-190 | One attribute passes exactly when its first matching claim is absent and the attribute is not required, or the claim's value suits the data type: any value for `string`, `is_integer` for `integer`, `is_boolean` for `boolean`. A required attribute with no claim fails with `MissingAttribute`. A claim that fails the `integer` or `boolean` check fails with `TypeMismatch`, carrying the name, the expected type and the value. A claim under any other data type fails with `UnsupportedType`. |
| `Validation.ValidateAttributesPass` | src/helpers.rs:151-191 | Validation passes exactly when every schema attribute passes its own check. |
| `Validation.ValidateAttributesFirstFailure` | src/helpers.rs:151-191 | On failure the error is that of the first failing attribute in schema order. |
| `Validation.ExtraClaimsIgnored` | src/helpers.rs:151-159 | Appending claims that no attribute names never changes the outcome. |
| `Validation.FindClaimAppend` | src/helpers.rs:153 | Appending claims with other names does not change which claim is found. |
| `Validation.UnsupportedTypeWithoutClaim` | src/helpers.rs:159-188 | An optional attribute with any data type, even an unsupported one, passes when no claim names it. |
| `Validation.ValidateClaimsAgainstSchema` | src/helpers.rs:145-192 | The loop's outcome is the outcome of checking the attributes in order, stopping at the first failure. |
| `Validation.AgeScenario` | src/helpers.rs:155-171 | For a required integer attribute `age`, `"30"` passes, `"abc"` is a type mismatch, and no claim is a missing attribute. |
| `DelegationCheck.JoinFromNonEmpty` | src/helpers.rs:232-241 | Folding non-empty types onto non-empty text gives that text, `", "`, and the types joined by `", "`. |
| `DelegationCheck.JoinTypesNonEmpty` | src/helpers.rs:232-241 | When no type is empty, the fold equals the ordinary `", "` join. |
| `DelegationCheck.JoinSkipsLeadingEmpty` | src/helpers.rs:236-238 | An empty first type takes no separator, so `["", t]` is listed as `t` rather than `", " ++ t`. |
| `DelegationCheck.AllPermittedIff` | src/helpers.rs:225-228 | The scope check holds exactly when every requested type is on the allow-list. |
| `DelegationCheck.VerifyDelegation` | src/helpers.rs:206-251 | Passes exactly when the delegation is stored, unrevoked, not past `valid_until` (non-strict), and allows every requested type. A missing delegation fails with `DelegationNotFound`, then revocation with `DelegationRevoked`, then expiry with `DelegationExpired`. A request outside the scope fails with `ScopeViolation`, carrying the permitted types joined as in the abort message. |
| `DelegationCheck.ScopeScenario` | src/helpers.rs:220-248 | Type X is refused under a delegation for [Y], allowed under [X, Y] up to `valid_until`, and refused as expired one second later. |
| `Invariants.HolderIdsAgree` | src/did.rs:144 | The holder list expected by the invariant depends only on which keys below the counter are stored and on their holders. |
| `Invariants.HolderIdsSound` | src/did.rs:117-144 | Every key the expected holder list names is stored, is below the counter, belongs to that holder, and the list is strictly increasing. |
| `Invariants.HolderIdsComplete` | src/did.rs:117-144 | Every stored credential of the holder below the counter is on the expected list. |
| `Invariants.HolderListIncreasing` | src/did.rs:117-144 | Under the invariant, every holder's stored list is strictly increasing and names only that holder's stored credentials. |
| `Invariants.DelegateIdsAgree` | src/did.rs:173 | The delegate list expected by the invariant depends only on which keys below the counter are stored and on their delegates. |
| `Invariants.FirstRevokedUnique` | src/did.rs:189-191 | At most one listed credential is the first already revoked one, which names the mark that aborts. |
| `Invariants.RevokeAll` | src/did.rs:189-191 | Marking a list of credentials keeps the set of stored keys. |
| `Invariants.RevokeAllExtend` | src/did.rs:189-191 | Marking one more credential of the list adds exactly that credential's revocation. |
| `Invariants.CreateDidKeepsIndex` | src/did.rs:40-59 | Storing a new document under a free derived DID, with the caller as controller, keeps the DID index one-to-one; the caller had no DID before. |
| `Invariants.RegisteredDidTaken` | src/did.rs:40-41 | An account that already has a DID always finds its derived DID taken. |
| `Invariants.RegisterSchemaKeepsInvariants` | src/did.rs:77-91 | Storing a schema under its derived id, by an issuer, keeps the schema invariant and the credential invariant. |
| `Invariants.IssueKeepsCredentials` | src/did.rs:117-144 | The counter key is free. Storing a credential there, pushing the key to its holder's list and advancing the counter keeps the credential invariant. |
| `Invariants.DelegateKeepsDelegations` | src/did.rs:162-174 | The counter key is free. Storing a delegation there, pushing the key to its delegate's list and advancing the counter keeps the delegation invariant. |
| `Invariants.RevokeKeepsCredentials` | src/did.rs:212-215 | Setting `revoked` on a stored credential keeps the credential invariant. |
| `Registry.DecodeCredentialId` | src/did.rs:12-15 | Decoding succeeds exactly on buffers of at most eight bytes. |
| `Registry.CredentialIdRoundTrip` | src/did.rs:12-15 | Decoding the id buffer `generate_credential_id` returns gives back the counter value. |
| `Registry.MarkedEventsExtend` | src/did.rs:218 | Marking one more credential appends exactly its `credentialMarkedForDeletion` event. |
| `Registry.DigitalIdentityContract.constructor` | src/did.rs:22-26 | The initial state has empty storage, both counters at zero, and satisfies the invariant. |
| `Registry.DigitalIdentityContract.CreateDid` | src/did.rs:30-60 | Fails if paused, then if the derived DID exists. On success it stores the document and maps the caller to the DID. The document has the caller as controller, one verification method, that method's id as only authentication entry, empty assertion and key-agreement lists, and `created == updated == now`. A caller with a DID always fails. The DID invariant is kept. |
| `Registry.DigitalIdentityContract.RegisterSchema` | src/did.rs:64-92 | Fails if paused, then for a non-issuer, then if the derived id exists. On success it stores the schema under that id with the caller as issuer, and no other schema changes. The invariants are kept. |
| `Registry.DigitalIdentityContract.GenerateCredentialId` | src/helpers.rs:86-92 | Returns the eight big-endian bytes of the old counter and advances the counter by one. |
| `Registry.DigitalIdentityContract.IssueCredential` | src/did.rs:96-145 | Fails if paused, then for a non-issuer, then for a missing schema, then with the first claim-validation error; a failure changes nothing. On success the old counter `k` was a free key. The credential stored at `k` has id `be8(k)`, `revoked` false, no delegation, the Merkle root as content hash, and the proof of `generate_credential_proof`. `k` is appended to the holder's list, the counter becomes `k+1`, and the invariant is kept. |
| `Registry.DigitalIdentityContract.StoreCredential` | src/did.rs:116-144 | After the checks: draws the next id, builds the credential and stores it under the decoded id. That id is the old counter. The key is appended to the holder's list, and the invariant is kept. |
| `Registry.DigitalIdentityContract.DelegateCredentialIssuance` | src/did.rs:149-175 | Fails if paused, then for a non-issuer. On success it stores, at the free old counter `d`, an unrevoked delegation with `id == d`. It appends `d` to the delegate's list, sets the counter to `d+1`, and keeps the invariant. |
| `Registry.DigitalIdentityContract.MarkCredentialForDeletion` | src/did.rs:198-219 | Fails for a missing credential, then for an already revoked one, with no pause or caller check. On success only that credential's `revoked` becomes true and its event is logged. Nothing else changes. |
| `Registry.DigitalIdentityContract.MarkEach` | src/did.rs:187-191 | Marks the listed credentials in order. It succeeds exactly when none was revoked. Otherwise it fails with `AlreadyRevoked` of the first listed credential that was. Success revokes exactly the listed ones and logs one event each, in order. A failure rolls everything back. |
| `Registry.DigitalIdentityContract.RequestDataDeletion` | src/did.rs:179-195 | Fails when the caller's list is empty. Succeeds exactly when the list is non-empty and none of the caller's credentials is revoked. Otherwise it fails with `AlreadyRevoked` of the first credential on the list that was. Success revokes exactly the listed credentials, so every credential held by the caller ends up revoked, logs the per-credential events, then `dataDeleteRequested`. Failure changes nothing, and revocation never goes back. |

## Left out

- SHA-256 is an uninterpreted function with 32-byte output.
- Helpers.VerifyCredentialProof: the BLS check inside `verify_bls` is not modelled. The call is the parameter `verifyBls`, which only says whether it returns normally or aborts; no property of real BLS verification is assumed.
- The "intended" signature check that `verify_credential_proof` would perform is not modelled. Only its assembled bytes are, in `Helpers.VerificationData`.
- `init`, `setPaused` and the `admin` owner check are owner access control and are not modelled.
- The constructor takes the initial `paused` flag instead, and `paused` is otherwise never written.
- `issuers` is a fixed set: no modelled endpoint writes it.
- Block timestamp and caller come from the platform; they are method parameters.
- Events are only recorded as an appended log; their indexed-topic encoding is not modelled.
- MultiversX codec details are abstracted, apart from the `u64` big-endian round trip. That includes the encoding of stored records and the exact decode failure of an empty storage entry, which is modelled as an error value.
- `ManagedBuffer::to_string` is treated as the identity on ASCII bytes. Non-UTF-8 buffers, whose conversion the platform handles in its own way, are not distinguished.
- `managed_buffer_from_bytes` is the identity on its bytes, so the stored id is written directly as `be8(k)`.
- Abort messages are modelled as error values; their text formatting is not modelled.
- Registry.DigitalIdentityContract.IssueCredential: requires `nextCredentialId < 2^64-1` instead of modelling the `u64` overflow panic of `counter + 1`.
- Registry.DigitalIdentityContract.GenerateCredentialId: requires `nextCredentialId < 2^64-1`, for the same reason.
- Registry.DigitalIdentityContract.StoreCredential: requires `nextCredentialId < 2^64-1`, for the same reason.
- Registry.DigitalIdentityContract.DelegateCredentialIssuance: requires `nextDelegationId < 2^64-1` instead of modelling the overflow panic of `delegation_id + 1`.
- Registry.DigitalIdentityContract.StoreCredential and Registry.DigitalIdentityContract.MarkEach are the second half of `issue_credential` and the loop of `request_data_deletion`, split out as methods of their own. They are not separate functions in the source.
- The invariant does not state that a stored credential's `id` field equals `be8` of its key. That fact is stated only at issuance, by `IssueCredential`'s postcondition.
- Each endpoint requires and re-establishes the invariant parts over the storage it writes, not the whole `Valid()`. The remaining parts read only storage outside its `modifies` clause.
- `verify_delegation` is never called by any endpoint, so it is modelled only as a function over a delegation map. `revoke_credential` is likewise modelled only as a function.
