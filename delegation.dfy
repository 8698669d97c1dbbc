/**
 * The delegation authorizer of `src/helpers.rs`: `verify_delegation` with
 * its all-of scope check and the `", "`-joined list of permitted types.
 */
module DelegationCheck {
  import opened Wrappers
  import opened Bytes
  import opened Structures

  const SEPARATOR: seq<u8> := Ascii(", ")

  datatype DelegationError =
    | DelegationNotFound(id: u64)
    | DelegationRevoked(id: u64)
    | DelegationExpired(id: u64)
    | ScopeViolation(id: u64, permitted: Buffer)

  /** One step of the fold: a separator goes in only when the text so far is not empty. */
  function JoinStep(acc: Buffer, t: Buffer): Buffer {
    (if acc != [] then acc + SEPARATOR else acc) + t
  }

  /** `credential_types.iter().fold(acc, JoinStep)`. */
  function JoinFrom(acc: Buffer, types: seq<Buffer>): Buffer
    decreases |types|
  {
    if types == [] then acc else JoinFrom(JoinStep(acc, types[0]), types[1..])
  }

  /** The permitted types as the abort message lists them. */
  function JoinTypes(types: seq<Buffer>): Buffer {
    JoinFrom([], types)
  }

  /** The types separated by `", "`, written as a right fold: the reference join. */
  function Intercalate(types: seq<Buffer>): Buffer {
    if |types| == 0 then []
    else if |types| == 1 then types[0]
    else types[0] + SEPARATOR + Intercalate(types[1..])
  }

  lemma {:induction false} JoinFromNonEmpty(acc: Buffer, types: seq<Buffer>)
    requires acc != []
    requires forall i | 0 <= i < |types| :: types[i] != []
    ensures JoinFrom(acc, types) == if types == [] then acc else acc + SEPARATOR + Intercalate(types)
    decreases |types|
  {
    if types != [] {
      var next := acc + SEPARATOR + types[0];
      JoinFromNonEmpty(next, types[1..]);
      if |types| > 1 {
        assert types[1..] != [];
        calc {
          JoinFrom(acc, types);
          next + SEPARATOR + Intercalate(types[1..]);
          acc + SEPARATOR + (types[0] + SEPARATOR + Intercalate(types[1..]));
        }
      }
    }
  }

  /** When no type is empty the fold is the ordinary `", "` join. */
  lemma JoinTypesNonEmpty(types: seq<Buffer>)
    requires forall i | 0 <= i < |types| :: types[i] != []
    ensures JoinTypes(types) == Intercalate(types)
  {
    if types != [] {
      if types[0] != [] {
        assert JoinStep([], types[0]) == types[0];
        JoinFromNonEmpty(types[0], types[1..]);
      }
    }
  }

  /** An empty leading type swallows the separator: `["", "X"]` is listed as `"X"`. */
  lemma JoinSkipsLeadingEmpty(t: Buffer)
    requires t != []
    ensures JoinTypes([[], t]) == t && Intercalate([[], t]) == SEPARATOR + t
  {
    var ts: seq<Buffer> := [[], t];
    assert ts[1..] == [t] && [t][1..] == [];
    calc {
      JoinTypes(ts);
      JoinFrom(JoinStep([], []), [t]);
      JoinFrom([], [t]);
      JoinFrom(JoinStep([], t), []);
      t;
    }
    assert Intercalate(ts) == [] + SEPARATOR + Intercalate([t]);
  }

  /** `credential_type.iter().all(|t| credential_types.contains(t))`. */
  function AllPermitted(types: seq<Buffer>, allowed: seq<Buffer>): bool {
    if types == [] then true else types[0] in allowed && AllPermitted(types[1..], allowed)
  }

  /** The scope check is all-of: every requested type must be on the allow-list. */
  lemma {:induction false} AllPermittedIff(types: seq<Buffer>, allowed: seq<Buffer>)
    ensures AllPermitted(types, allowed) <==> forall i | 0 <= i < |types| :: types[i] in allowed
  {
    if types != [] {
      AllPermittedIff(types[1..], allowed);
      assert forall i | 1 <= i < |types| :: types[i] == types[1..][i - 1];
    }
  }

  /**
   * `verify_delegation` at block time `now`: the stored delegation is loaded
   * (a missing one fails to decode), then revocation, expiry and scope are
   * checked in that order. `Pass` is the source's `true`.
   */
  function VerifyDelegation(
    delegations: map<u64, Delegation>, delegationId: u64, credential: Credential, now: u64)
    : (r: Outcome<DelegationError>)
    ensures r == Pass <==>
      && delegationId in delegations
      && !delegations[delegationId].revoked
      && now <= delegations[delegationId].validUntil
      && forall i | 0 <= i < |credential.credentialType| ::
           credential.credentialType[i] in delegations[delegationId].credentialTypes
    ensures delegationId in delegations && delegations[delegationId].revoked
      ==> r == Fail(DelegationRevoked(delegationId))
    ensures delegationId in delegations && !delegations[delegationId].revoked
      && now > delegations[delegationId].validUntil
      ==> r == Fail(DelegationExpired(delegationId))
    ensures delegationId !in delegations ==> r == Fail(DelegationNotFound(delegationId))
    ensures delegationId in delegations
      && !delegations[delegationId].revoked
      && now <= delegations[delegationId].validUntil
      && (exists i | 0 <= i < |credential.credentialType| ::
            credential.credentialType[i] !in delegations[delegationId].credentialTypes)
      ==> r == Fail(ScopeViolation(delegationId, JoinTypes(delegations[delegationId].credentialTypes)))
  {
    AllPermittedIff(credential.credentialType, if delegationId in delegations then delegations[delegationId].credentialTypes else []);
    if delegationId !in delegations then Fail(DelegationNotFound(delegationId))
    else
      var delegation := delegations[delegationId];
      if delegation.revoked then Fail(DelegationRevoked(delegationId))
      else if now > delegation.validUntil then Fail(DelegationExpired(delegationId))
      else if !AllPermitted(credential.credentialType, delegation.credentialTypes) then
        Fail(ScopeViolation(delegationId, JoinTypes(delegation.credentialTypes)))
      else Pass
  }

  /**
   * A credential of type X: refused under a delegation scoped to [Y], allowed
   * under [X, Y] until `valid_until`, refused as expired after it.
   */
  lemma ScopeScenario(d: Delegation, credential: Credential, x: Buffer, y: Buffer, now: u64)
    requires x != y && credential.credentialType == [x]
    requires !d.revoked && now <= d.validUntil < U64_MAX
    ensures VerifyDelegation(map[7 := d.(credentialTypes := [y])], 7, credential, now)
         == Fail(ScopeViolation(7, JoinTypes([y])))
    ensures VerifyDelegation(map[7 := d.(credentialTypes := [x, y])], 7, credential, now) == Pass
    ensures VerifyDelegation(map[7 := d.(credentialTypes := [x, y])], 7, credential, d.validUntil + 1)
         == Fail(DelegationExpired(7))
  {
  }
}
