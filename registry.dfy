/**
 * The registry state machine of `src/did.rs`. The contract's storage
 * mappers are the fields of `DigitalIdentityContract`; every endpoint is a
 * method that either commits its whole update and returns `Pass`, or aborts
 * with the error of the first failed check and leaves the state as it was
 * (the transaction is rolled back). Caller and block timestamp are
 * parameters.
 */
module Registry {
  import opened Wrappers
  import opened Bytes
  import opened Structures
  import opened Base16
  import opened Helpers
  import opened Validation
  import opened Invariants

  datatype Error =
    | ContractPaused
    | NotAnIssuer
    | DidAlreadyExists
    | SchemaAlreadyExists
    | SchemaNotFound
    | InvalidClaims(reason: ValidationError)
    | CredentialNotFound(id: u64)
    | AlreadyRevoked(id: u64)
    | NoCredentialsForHolder

  /** The contract's two events, kept as an appended log. */
  datatype Event =
    | CredentialMarkedForDeletion(credentialId: u64)
    | DataDeletionRequested(holder: Address)

  /** `decode_credential_id`: the top-decoding of a `u64`, at most eight big-endian bytes. */
  function DecodeCredentialId(buffer: seq<u8>): (r: Option<u64>)
    ensures r.Some? <==> |buffer| <= 8
  {
    if |buffer| <= 8 then
      Pow256Eight();
      assert Pow256(|buffer|) <= Pow256(8) by { Pow256Monotone(|buffer|, 8); }
      Some(BigEndianValue(buffer))
    else None
  }

  lemma {:induction false} Pow256Monotone(m: nat, n: nat)
    requires m <= n
    ensures Pow256(m) <= Pow256(n)
    decreases n - m
  {
    if m < n {
      Pow256Monotone(m + 1, n);
    }
  }

  /** Decoding the buffer `generate_credential_id` returns gives back the counter value. */
  lemma CredentialIdRoundTrip(n: u64)
    ensures DecodeCredentialId(Be8(n)) == Some(n)
  {
    Be8RoundTrip(n);
  }

  function MarkedEvents(ids: seq<u64>): (r: seq<Event>)
    ensures |r| == |ids|
  {
    seq(|ids|, i requires 0 <= i < |ids| => CredentialMarkedForDeletion(ids[i]))
  }

  lemma MarkedEventsExtend(ids: seq<u64>, i: nat)
    requires i < |ids|
    ensures MarkedEvents(ids[..i + 1]) == MarkedEvents(ids[..i]) + [CredentialMarkedForDeletion(ids[i])]
  {
  }

  /** The credential `issueCredential` stores under key `k`, proof included. */
  function IssuedCredential(
    sha256: HashFn, k: u64, caller: Address, holder: Address, credentialType: seq<Buffer>, schemaId: Buffer,
    claims: Claims, now: u64, expirationDate: Option<u64>, encryptionKey: Buffer): Credential
  {
    Credential(
      Be8(k), caller, holder, credentialType, schemaId, claims.merkleRoot, claims, now,
      expirationDate, false, None, encryptionKey,
      CredentialProof(PROOF_TYPE, now, caller, Hex(sha256(ProofData(caller, holder, claims.merkleRoot, now)))))
  }

  class DigitalIdentityContract {
    /** The platform's SHA-256. */
    const sha256: HashFn
    /** The accounts whose `issuers` entry is set; no modelled endpoint writes it. */
    const issuers: set<Address>

    var paused: bool
    var didDocuments: map<Buffer, DidDocument>
    var addressToDid: map<Address, Buffer>
    var credentialSchemas: map<Buffer, CredentialSchema>
    var credentials: map<u64, Credential>
    var nextCredentialId: u64
    var holderCredentials: map<Address, seq<u64>>
    var delegations: map<u64, Delegation>
    var nextDelegationId: u64
    var delegateToDelegations: map<Address, seq<u64>>
    var events: seq<Event>

    /** The DID index is one-to-one (see `DidIndexOk`). */
    ghost predicate DidsValid()
      reads this`didDocuments, this`addressToDid
    {
      DidIndexOk(sha256, didDocuments, addressToDid)
    }

    /** Every schema sits under its derived id (see `SchemasOk`). */
    ghost predicate SchemasValid()
      reads this`credentialSchemas
    {
      SchemasOk(sha256, issuers, credentialSchemas)
    }

    /** The credential store and the holder index agree (see `CredentialsOk`). */
    ghost predicate CredentialsValid()
      reads this`credentialSchemas, this`credentials, this`nextCredentialId, this`holderCredentials
    {
      CredentialsOk(issuers, credentialSchemas, credentials, nextCredentialId, holderCredentials)
    }

    /** The delegation store and the delegate index agree (see `DelegationsOk`). */
    ghost predicate DelegationsValid()
      reads this`delegations, this`nextDelegationId, this`delegateToDelegations
    {
      DelegationsOk(issuers, delegations, nextDelegationId, delegateToDelegations)
    }

    /**
     * The contract invariant. Each endpoint below requires and re-establishes
     * the parts over the storage it writes; the other parts read only
     * storage it leaves alone, so they carry over by the `reads` frames.
     */
    ghost predicate Valid()
      reads this
    {
      DidsValid() && SchemasValid() && CredentialsValid() && DelegationsValid()
    }

    /** The state after `init`: empty storage, counters at zero. */
    constructor (sha256: HashFn, issuers: set<Address>, paused: bool)
      ensures Valid()
      ensures this.sha256 == sha256 && this.issuers == issuers && this.paused == paused
      ensures didDocuments == map[] && addressToDid == map[] && credentialSchemas == map[]
      ensures credentials == map[] && nextCredentialId == 0 && holderCredentials == map[]
      ensures delegations == map[] && nextDelegationId == 0 && delegateToDelegations == map[]
      ensures events == []
    {
      this.sha256 := sha256;
      this.issuers := issuers;
      this.paused := paused;
      didDocuments, addressToDid, credentialSchemas := map[], map[], map[];
      credentials, nextCredentialId, holderCredentials := map[], 0, map[];
      delegations, nextDelegationId, delegateToDelegations := map[], 0, map[];
      events := [];
    }

    /** `createDid`. */
    method CreateDid(caller: Address, now: u64, verificationMethod: VerificationMethod, services: seq<Service>)
      returns (r: Outcome<Error>)
      requires DidsValid()
      modifies this`didDocuments, this`addressToDid
      ensures DidsValid()
      ensures r == if paused then Fail(ContractPaused)
                   else if GenerateDid(sha256, caller) in old(didDocuments) then Fail(DidAlreadyExists)
                   else Pass
      ensures r.Fail? ==> unchanged(this)
      ensures r.Pass? ==>
        var did := GenerateDid(sha256, caller);
        && didDocuments == old(didDocuments)[did := DidDocument(
             did, caller, [verificationMethod], [verificationMethod.id], [], [], services, now, now)]
        && addressToDid == old(addressToDid)[caller := did]
      ensures old(caller in addressToDid) ==> r.Fail?
    {
      if caller in addressToDid {
        RegisteredDidTaken(sha256, didDocuments, addressToDid, caller);
      }
      if paused {
        return Fail(ContractPaused);
      }
      var did := GenerateDid(sha256, caller);
      if did in didDocuments {
        return Fail(DidAlreadyExists);
      }
      var authMethods := [verificationMethod.id];
      var document := DidDocument(
        did, caller, [verificationMethod], authMethods, [], [], services, now, now);
      CreateDidKeepsIndex(sha256, didDocuments, addressToDid, caller, document);
      didDocuments := didDocuments[did := document];
      addressToDid := addressToDid[caller := did];
      r := Pass;
    }

    /** `registerSchema`. */
    method RegisterSchema(caller: Address, typ: Buffer, attributes: seq<SchemaAttribute>, version: Buffer)
      returns (r: Outcome<Error>)
      requires SchemasValid() && CredentialsValid()
      modifies this`credentialSchemas
      ensures SchemasValid() && CredentialsValid()
      ensures r == if paused then Fail(ContractPaused)
                   else if caller !in issuers then Fail(NotAnIssuer)
                   else if GenerateSchemaId(sha256, typ, version) in old(credentialSchemas) then Fail(SchemaAlreadyExists)
                   else Pass
      ensures r.Fail? ==> unchanged(this)
      ensures r.Pass? ==>
        var id := GenerateSchemaId(sha256, typ, version);
        credentialSchemas == old(credentialSchemas)[id := CredentialSchema(id, typ, attributes, caller, version)]
    {
      if paused {
        return Fail(ContractPaused);
      }
      if caller !in issuers {
        return Fail(NotAnIssuer);
      }
      var schemaId := GenerateSchemaId(sha256, typ, version);
      if schemaId in credentialSchemas {
        return Fail(SchemaAlreadyExists);
      }
      var schema := CredentialSchema(schemaId, typ, attributes, caller, version);
      RegisterSchemaKeepsInvariants(
        sha256, issuers, credentialSchemas, schema, credentials, nextCredentialId, holderCredentials);
      credentialSchemas := credentialSchemas[schemaId := schema];
      r := Pass;
    }

    /** `generate_credential_id`: the counter's big-endian bytes; the counter advances by one. */
    method GenerateCredentialId() returns (id: seq<u8>)
      requires nextCredentialId < U64_MAX
      modifies this`nextCredentialId
      ensures id == Be8(old(nextCredentialId))
      ensures nextCredentialId == old(nextCredentialId) + 1
    {
      var counter := nextCredentialId;
      nextCredentialId := counter + 1;
      id := Be8(counter);
    }

    /** `issueCredential`. */
    method IssueCredential(
      caller: Address, now: u64, holder: Address, credentialType: seq<Buffer>, schemaId: Buffer,
      claims: Claims, expirationDate: Option<u64>, encryptionKey: Buffer)
      returns (r: Outcome<Error>)
      requires CredentialsValid()
      requires nextCredentialId < U64_MAX
      modifies this`credentials, this`nextCredentialId, this`holderCredentials
      ensures CredentialsValid()
      ensures r == if paused then Fail(ContractPaused)
                   else if caller !in issuers then Fail(NotAnIssuer)
                   else if schemaId !in credentialSchemas then Fail(SchemaNotFound)
                   else match ValidateAttributes(claims.data, credentialSchemas[schemaId].attributes)
                        case Fail(e) => Fail(InvalidClaims(e))
                        case Pass => Pass
      ensures r.Fail? ==> unchanged(this)
      ensures r.Pass? ==>
        var k := old(nextCredentialId);
        && nextCredentialId == k + 1
        && k !in old(credentials)
        && credentials == old(credentials)[k := IssuedCredential(
             sha256, k, caller, holder, credentialType, schemaId, claims, now, expirationDate, encryptionKey)]
        && holderCredentials == old(holderCredentials)[holder := IdsOf(old(holderCredentials), holder) + [k]]
      ensures CredentialsEvolve(old(credentials), credentials)
    {
      if paused {
        r := Fail(ContractPaused);
      } else if caller !in issuers {
        r := Fail(NotAnIssuer);
      } else if schemaId !in credentialSchemas {
        r := Fail(SchemaNotFound);
      } else {
        var schema := credentialSchemas[schemaId];
        var validation := ValidateClaimsAgainstSchema(claims, schema);
        if validation.Fail? {
          r := Fail(InvalidClaims(validation.error));
        } else {
          StoreCredential(caller, now, holder, credentialType, schemaId, claims, expirationDate, encryptionKey);
          r := Pass;
        }
      }
    }

    /**
     * The rest of `issueCredential`, once the checks have passed: draw the
     * next id, sign, store the credential under the decoded id and push that
     * id to the holder's list.
     */
    method StoreCredential(
      caller: Address, now: u64, holder: Address, credentialType: seq<Buffer>, schemaId: Buffer,
      claims: Claims, expirationDate: Option<u64>, encryptionKey: Buffer)
      requires CredentialsValid() && nextCredentialId < U64_MAX
      requires caller in issuers && schemaId in credentialSchemas
      modifies this`credentials, this`nextCredentialId, this`holderCredentials
      ensures CredentialsValid()
      ensures var k := old(nextCredentialId);
        && nextCredentialId == k + 1
        && k !in old(credentials)
        && credentials == old(credentials)[k := IssuedCredential(
             sha256, k, caller, holder, credentialType, schemaId, claims, now, expirationDate, encryptionKey)]
        && holderCredentials == old(holderCredentials)[holder := IdsOf(old(holderCredentials), holder) + [k]]
    {
      ghost var counter := nextCredentialId;
      var credentialId := GenerateCredentialId();
      assert CredentialsOk(issuers, credentialSchemas, credentials, counter, holderCredentials);
      var proof := GenerateCredentialProof(sha256, caller, holder, claims.merkleRoot, now);
      var credential := Credential(
        credentialId, caller, holder, credentialType, schemaId, claims.merkleRoot, claims, now,
        expirationDate, false, None, encryptionKey, proof);
      CredentialIdRoundTrip(counter);
      var key := DecodeCredentialId(credentialId).value;
      IssueKeepsCredentials(issuers, credentialSchemas, credentials, key, holderCredentials, credential);
      credentials := credentials[key := credential];
      holderCredentials := holderCredentials[holder := IdsOf(holderCredentials, holder) + [key]];
    }

    /** `delegateCredentialIssuance`. */
    method DelegateCredentialIssuance(caller: Address, delegate: Address, credentialTypes: seq<Buffer>, validUntil: u64)
      returns (r: Outcome<Error>)
      requires DelegationsValid()
      requires nextDelegationId < U64_MAX
      modifies this`delegations, this`delegateToDelegations, this`nextDelegationId
      ensures DelegationsValid()
      ensures r == if paused then Fail(ContractPaused)
                   else if caller !in issuers then Fail(NotAnIssuer)
                   else Pass
      ensures r.Fail? ==> unchanged(this)
      ensures r.Pass? ==>
        var d := old(nextDelegationId);
        && d !in old(delegations)
        && delegations == old(delegations)[d := Delegation(d, caller, delegate, credentialTypes, validUntil, false)]
        && delegateToDelegations == old(delegateToDelegations)[delegate := IdsOf(old(delegateToDelegations), delegate) + [d]]
        && nextDelegationId == d + 1
    {
      if paused {
        return Fail(ContractPaused);
      }
      if caller !in issuers {
        return Fail(NotAnIssuer);
      }
      var delegationId := nextDelegationId;
      var delegation := Delegation(delegationId, caller, delegate, credentialTypes, validUntil, false);
      var listed := IdsOf(delegateToDelegations, delegate);
      DelegateKeepsDelegations(issuers, delegations, delegationId, delegateToDelegations, delegation);
      delegations := delegations[delegationId := delegation];
      delegateToDelegations := delegateToDelegations[delegate := listed + [delegationId]];
      nextDelegationId := delegationId + 1;
      r := Pass;
    }

    /**
     * `markCredentialForDeletion`: no pause check and no check of who the
     * caller is; an absent credential fails to decode.
     */
    method MarkCredentialForDeletion(credentialId: u64) returns (r: Outcome<Error>)
      requires CredentialsValid()
      modifies this`credentials, this`events
      ensures CredentialsValid()
      ensures r == if credentialId !in old(credentials) then Fail(CredentialNotFound(credentialId))
                   else if old(credentials)[credentialId].revoked then Fail(AlreadyRevoked(credentialId))
                   else Pass
      ensures r.Fail? ==> unchanged(this)
      ensures r.Pass? ==>
        && credentials == old(credentials)[credentialId := old(credentials)[credentialId].(revoked := true)]
        && events == old(events) + [CredentialMarkedForDeletion(credentialId)]
      ensures CredentialsEvolve(old(credentials), credentials)
    {
      if credentialId !in credentials {
        return Fail(CredentialNotFound(credentialId));
      }
      var credential := credentials[credentialId];
      if credential.revoked {
        return Fail(AlreadyRevoked(credentialId));
      }
      RevokeKeepsCredentials(issuers, credentialSchemas, credentials, nextCredentialId, holderCredentials, credentialId);
      credential := credential.(revoked := true);
      credentials := credentials[credentialId := credential];
      events := events + [CredentialMarkedForDeletion(credentialId)];
      r := Pass;
    }

    /**
     * The loop of `requestDataDeletion`: marks the listed credentials in
     * order. If one mark aborts, the marks already made are rolled back
     * with it.
     */
    method MarkEach(ids: seq<u64>) returns (r: Outcome<Error>)
      requires CredentialsValid()
      requires forall i | 0 <= i < |ids| :: ids[i] in credentials
      requires forall i, j | 0 <= i < j < |ids| :: ids[i] != ids[j]
      modifies this`credentials, this`events
      ensures CredentialsValid()
      ensures r.Pass? <==> forall i | 0 <= i < |ids| :: !old(credentials)[ids[i]].revoked
      ensures forall i | FirstRevoked(old(credentials), ids, i) :: r == Fail(AlreadyRevoked(ids[i]))
      ensures r.Fail? ==> unchanged(this)
      ensures r.Pass? ==>
        && credentials == RevokeAll(old(credentials), ids)
        && events == old(events) + MarkedEvents(ids)
    {
      var savedCredentials, savedEvents := credentials, events;
      for i := 0 to |ids|
        invariant CredentialsValid()
        invariant credentials == RevokeAll(savedCredentials, ids[..i])
        invariant events == savedEvents + MarkedEvents(ids[..i])
        invariant forall j | 0 <= j < i :: !savedCredentials[ids[j]].revoked
      {
        var id := ids[i];
        assert id !in ids[..i];
        assert credentials[id] == savedCredentials[id];
        var marked := MarkCredentialForDeletion(id);
        if marked.Fail? {
          assert FirstRevoked(savedCredentials, ids, i);
          forall k | FirstRevoked(savedCredentials, ids, k) ensures ids[k] == id {
            FirstRevokedUnique(savedCredentials, ids, i, k);
          }
          credentials, events := savedCredentials, savedEvents;
          return marked;
        }
        RevokeAllExtend(savedCredentials, ids, i);
        MarkedEventsExtend(ids, i);
      }
      assert ids[..|ids|] == ids;
      r := Pass;
    }

    /**
     * `requestDataDeletion`: marks every credential on the caller's list;
     * a caller with an empty list is refused.
     */
    method RequestDataDeletion(caller: Address) returns (r: Outcome<Error>)
      requires CredentialsValid()
      modifies this`credentials, this`events
      ensures CredentialsValid()
      ensures var ids := IdsOf(holderCredentials, caller);
        r.Pass? <==> ids != [] && forall k | k in old(credentials) && old(credentials)[k].holder == caller ::
          !old(credentials)[k].revoked
      ensures IdsOf(holderCredentials, caller) == [] ==> r == Fail(NoCredentialsForHolder)
      ensures var ids := IdsOf(holderCredentials, caller);
        forall i | FirstRevoked(old(credentials), ids, i) :: r == Fail(AlreadyRevoked(ids[i]))
      ensures r.Fail? ==> unchanged(this)
      ensures r.Pass? ==>
        var ids := IdsOf(holderCredentials, caller);
        && credentials == RevokeAll(old(credentials), ids)
        && events == old(events) + MarkedEvents(ids) + [DataDeletionRequested(caller)]
      ensures r.Pass? ==> forall k | k in credentials && credentials[k].holder == caller :: credentials[k].revoked
      ensures CredentialsEvolve(old(credentials), credentials)
    {
      var ids := IdsOf(holderCredentials, caller);
      if ids == [] {
        return Fail(NoCredentialsForHolder);
      }
      assert ids == HolderIds(credentials, caller, nextCredentialId);
      HolderIdsSound(credentials, caller, nextCredentialId);
      forall k | k in credentials && credentials[k].holder == caller ensures k in ids {
        HolderIdsComplete(credentials, caller, nextCredentialId, k);
      }
      r := MarkEach(ids);
      if r.Fail? {
        return;
      }
      events := events + [DataDeletionRequested(caller)];
    }
  }
}
