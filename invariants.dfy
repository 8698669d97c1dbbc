/**
 * The storage invariants of the registry, stated on the values of its
 * storage mappers, and the lemmas showing that each endpoint's update keeps
 * them.
 */
module Invariants {
  import opened Bytes
  import opened Structures
  import opened Helpers

  /** A `VecMapper` read: a key never pushed to holds the empty list. */
  function IdsOf(index: map<Address, seq<u64>>, key: Address): seq<u64> {
    if key in index then index[key] else []
  }

  predicate StrictlyIncreasing(s: seq<u64>) {
    forall i, j | 0 <= i < j < |s| :: s[i] < s[j]
  }

  /**
   * The keys below `n` under which `credentials` holds a credential of
   * `holder`, in increasing order. Keys come from a counter and a holder's
   * list is only ever appended to, so this is what the holder index lists.
   */
  function HolderIds(credentials: map<u64, Credential>, holder: Address, n: u64): seq<u64>
    decreases n
  {
    if n == 0 then []
    else
      var last := if n - 1 in credentials && credentials[n - 1].holder == holder then [n - 1] else [];
      HolderIds(credentials, holder, n - 1) + last
  }

  /** `HolderIds` only looks at the keys below `n` and their holders. */
  lemma {:induction false} HolderIdsAgree(a: map<u64, Credential>, b: map<u64, Credential>, holder: Address, n: u64)
    requires forall k: u64 | k < n :: (k in a <==> k in b) && (k in a ==> a[k].holder == b[k].holder)
    ensures HolderIds(a, holder, n) == HolderIds(b, holder, n)
    decreases n
  {
    if n > 0 {
      HolderIdsAgree(a, b, holder, n - 1);
    }
  }

  /** Every id in `ids` is a key below `n` of a stored credential of `holder`. */
  predicate HeldBelow(credentials: map<u64, Credential>, holder: Address, n: u64, ids: seq<u64>) {
    forall i | 0 <= i < |ids| :: ids[i] < n && ids[i] in credentials && credentials[ids[i]].holder == holder
  }

  /** Everything `HolderIds` lists is a stored credential of that holder, below `n`, without repetition. */
  lemma {:induction false} HolderIdsSound(credentials: map<u64, Credential>, holder: Address, n: u64)
    ensures HeldBelow(credentials, holder, n, HolderIds(credentials, holder, n))
    ensures StrictlyIncreasing(HolderIds(credentials, holder, n))
    decreases n
  {
    if n > 0 {
      HolderIdsSound(credentials, holder, n - 1);
      var before: seq<u64> := HolderIds(credentials, holder, n - 1);
      var ids: seq<u64> := HolderIds(credentials, holder, n);
      if n - 1 in credentials && credentials[n - 1].holder == holder {
        assert ids == before + [n - 1];
        forall i | 0 <= i < |ids|
          ensures ids[i] < n && ids[i] in credentials && credentials[ids[i]].holder == holder
        {
          if i < |before| {
            assert ids[i] == before[i];
          }
        }
        forall i, j | 0 <= i < j < |ids| ensures ids[i] < ids[j] {
          assert ids[i] == before[i];
          if j < |before| {
            assert ids[j] == before[j];
          }
        }
      } else {
        assert ids == before;
      }
    }
  }

  /** Every stored credential of the holder below `n` is listed. */
  lemma {:induction false} HolderIdsComplete(credentials: map<u64, Credential>, holder: Address, n: u64, k: u64)
    requires k < n && k in credentials && credentials[k].holder == holder
    ensures k in HolderIds(credentials, holder, n)
    decreases n
  {
    if k < n - 1 {
      HolderIdsComplete(credentials, holder, n - 1, k);
    }
  }

  /** The keys below `n` of the delegations made to `delegate`, in increasing order. */
  function DelegateIds(delegations: map<u64, Delegation>, delegate: Address, n: u64): seq<u64>
    decreases n
  {
    if n == 0 then []
    else
      var last := if n - 1 in delegations && delegations[n - 1].delegate == delegate then [n - 1] else [];
      DelegateIds(delegations, delegate, n - 1) + last
  }

  /** `DelegateIds` only looks at the keys below `n` and their delegates. */
  lemma {:induction false} DelegateIdsAgree(a: map<u64, Delegation>, b: map<u64, Delegation>, delegate: Address, n: u64)
    requires forall k: u64 | k < n :: (k in a <==> k in b) && (k in a ==> a[k].delegate == b[k].delegate)
    ensures DelegateIds(a, delegate, n) == DelegateIds(b, delegate, n)
    decreases n
  {
    if n > 0 {
      DelegateIdsAgree(a, b, delegate, n - 1);
    }
  }

  /**
   * What any sequence of endpoints may do to the stored credentials: keep
   * every key, change nothing but `revoked`, and never set it back to false.
   */
  ghost predicate CredentialsEvolve(before: map<u64, Credential>, after: map<u64, Credential>) {
    forall k | k in before ::
      && k in after
      && after[k].(revoked := before[k].revoked) == before[k]
      && (before[k].revoked ==> after[k].revoked)
  }

  /** `ids[i]` is the first listed credential that is already revoked. */
  predicate FirstRevoked(credentials: map<u64, Credential>, ids: seq<u64>, i: int) {
    && 0 <= i < |ids|
    && ids[i] in credentials && credentials[ids[i]].revoked
    && forall j | 0 <= j < i :: ids[j] in credentials && !credentials[ids[j]].revoked
  }

  /** At most one listed credential is the first revoked one. */
  lemma FirstRevokedUnique(credentials: map<u64, Credential>, ids: seq<u64>, i: int, k: int)
    requires FirstRevoked(credentials, ids, i) && FirstRevoked(credentials, ids, k)
    ensures i == k
  {
  }

  /** The credentials after every listed one has been marked. */
  function RevokeAll(credentials: map<u64, Credential>, ids: seq<u64>): (r: map<u64, Credential>)
    ensures r.Keys == credentials.Keys
  {
    map k | k in credentials :: if k in ids then credentials[k].(revoked := true) else credentials[k]
  }

  /** Marking one more listed credential extends `RevokeAll` by one entry. */
  lemma RevokeAllExtend(credentials: map<u64, Credential>, ids: seq<u64>, i: nat)
    requires i < |ids| && ids[i] in credentials
    ensures var done := RevokeAll(credentials, ids[..i]);
      RevokeAll(credentials, ids[..i + 1]) == done[ids[i] := done[ids[i]].(revoked := true)]
  {
  }

  /** One DID per account, stored under the DID derived from that account. */
  ghost predicate DidIndexOk(sha256: HashFn, documents: map<Buffer, DidDocument>, index: map<Address, Buffer>) {
    && (forall a | a in index ::
          && index[a] == GenerateDid(sha256, a)
          && index[a] in documents
          && documents[index[a]].controller == a)
    && (forall d | d in documents ::
          && documents[d].did == d
          && |documents[d].verificationMethods| >= 1
          && documents[d].controller in index
          && index[documents[d].controller] == d)
  }

  /** Every schema sits under the id derived from its type and version, and was registered by an issuer. */
  ghost predicate SchemasOk(sha256: HashFn, issuers: set<Address>, schemas: map<Buffer, CredentialSchema>) {
    forall s | s in schemas ::
      && schemas[s].id == s
      && s == GenerateSchemaId(sha256, schemas[s].typ, schemas[s].version)
      && schemas[s].issuer in issuers
  }

  /**
   * Credential keys lie below the counter, every credential names an
   * issuer and a registered schema, and the holder
   * index lists, for every account, exactly that holder's credential keys
   * in issue order.
   */
  ghost predicate CredentialsOk(
    issuers: set<Address>, schemas: map<Buffer, CredentialSchema>,
    credentials: map<u64, Credential>, next: u64, index: map<Address, seq<u64>>)
  {
    && (forall k | k in credentials ::
          && k < next
          && credentials[k].issuer in issuers
          && credentials[k].schemaId in schemas)
    && (forall h :: IdsOf(index, h) == HolderIds(credentials, h, next))
  }

  /** The same discipline for delegations and the delegate index. */
  ghost predicate DelegationsOk(
    issuers: set<Address>, delegations: map<u64, Delegation>, next: u64, index: map<Address, seq<u64>>)
  {
    && (forall k | k in delegations ::
          && k < next
          && delegations[k].id == k
          && delegations[k].delegator in issuers)
    && (forall h :: IdsOf(index, h) == DelegateIds(delegations, h, next))
  }

  /**
   * Under the invariant every holder's list is strictly increasing and names
   * only stored credentials of that holder, below the counter.
   */
  lemma HolderListIncreasing(
    issuers: set<Address>, schemas: map<Buffer, CredentialSchema>,
    credentials: map<u64, Credential>, next: u64, index: map<Address, seq<u64>>, holder: Address)
    requires CredentialsOk(issuers, schemas, credentials, next, index)
    ensures StrictlyIncreasing(IdsOf(index, holder))
    ensures HeldBelow(credentials, holder, next, IdsOf(index, holder))
  {
    HolderIdsSound(credentials, holder, next);
  }

  /** Creating a DID for an account whose DID is free keeps the index one-to-one. */
  lemma CreateDidKeepsIndex(
    sha256: HashFn, documents: map<Buffer, DidDocument>, index: map<Address, Buffer>,
    caller: Address, document: DidDocument)
    requires DidIndexOk(sha256, documents, index)
    requires document.did == GenerateDid(sha256, caller) && document.did !in documents
    requires document.controller == caller && |document.verificationMethods| >= 1
    ensures caller !in index
    ensures DidIndexOk(sha256, documents[document.did := document], index[caller := document.did])
  {
  }

  /** A registered account always finds its DID taken. */
  lemma RegisteredDidTaken(
    sha256: HashFn, documents: map<Buffer, DidDocument>, index: map<Address, Buffer>, caller: Address)
    requires DidIndexOk(sha256, documents, index) && caller in index
    ensures GenerateDid(sha256, caller) in documents
  {
  }

  /** Registering a schema under its derived id keeps the schema invariant and every credential's schema reference. */
  lemma RegisterSchemaKeepsInvariants(
    sha256: HashFn, issuers: set<Address>, schemas: map<Buffer, CredentialSchema>, schema: CredentialSchema,
    credentials: map<u64, Credential>, next: u64, index: map<Address, seq<u64>>)
    requires SchemasOk(sha256, issuers, schemas)
    requires CredentialsOk(issuers, schemas, credentials, next, index)
    requires schema.id == GenerateSchemaId(sha256, schema.typ, schema.version) && schema.issuer in issuers
    ensures SchemasOk(sha256, issuers, schemas[schema.id := schema])
    ensures CredentialsOk(issuers, schemas[schema.id := schema], credentials, next, index)
  {
  }

  /** Storing a credential under the counter and pushing the key to its holder's list keeps the invariant. */
  lemma IssueKeepsCredentials(
    issuers: set<Address>, schemas: map<Buffer, CredentialSchema>,
    credentials: map<u64, Credential>, key: u64, index: map<Address, seq<u64>>, credential: Credential)
    requires CredentialsOk(issuers, schemas, credentials, key, index) && key < U64_MAX
    requires credential.issuer in issuers && credential.schemaId in schemas
    ensures key !in credentials
    ensures CredentialsOk(issuers, schemas, credentials[key := credential], key + 1,
      index[credential.holder := IdsOf(index, credential.holder) + [key]])
  {
    var after := credentials[key := credential];
    var extended := index[credential.holder := IdsOf(index, credential.holder) + [key]];
    forall h ensures IdsOf(extended, h) == HolderIds(after, h, key + 1) {
      HolderIdsAgree(after, credentials, h, key);
    }
  }

  /** The same for a delegation stored under its counter. */
  lemma DelegateKeepsDelegations(
    issuers: set<Address>, delegations: map<u64, Delegation>, key: u64, index: map<Address, seq<u64>>,
    delegation: Delegation)
    requires DelegationsOk(issuers, delegations, key, index) && key < U64_MAX
    requires delegation.id == key && delegation.delegator in issuers
    ensures key !in delegations
    ensures DelegationsOk(issuers, delegations[key := delegation], key + 1,
      index[delegation.delegate := IdsOf(index, delegation.delegate) + [key]])
  {
    var after := delegations[key := delegation];
    var extended := index[delegation.delegate := IdsOf(index, delegation.delegate) + [key]];
    forall h ensures IdsOf(extended, h) == DelegateIds(after, h, key + 1) {
      DelegateIdsAgree(after, delegations, h, key);
    }
  }

  /** Flipping `revoked` on a stored credential keeps the invariant. */
  lemma RevokeKeepsCredentials(
    issuers: set<Address>, schemas: map<Buffer, CredentialSchema>,
    credentials: map<u64, Credential>, next: u64, index: map<Address, seq<u64>>, id: u64)
    requires CredentialsOk(issuers, schemas, credentials, next, index)
    requires id in credentials
    ensures CredentialsOk(issuers, schemas, credentials[id := credentials[id].(revoked := true)], next, index)
  {
    var after := credentials[id := credentials[id].(revoked := true)];
    forall h ensures IdsOf(index, h) == HolderIds(after, h, next) {
      HolderIdsAgree(after, credentials, h, next);
    }
  }
}
