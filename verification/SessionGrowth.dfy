/** Enlarging what a runtime generation grants never turns an admitted request of a session into a denied one. */
module SessionGrowth {
  import opened Wrappers
  import opened Authorization
  import opened Sessions
  import opened SessionLaws

  ghost predicate FlagsGrow<K(!new)>(before: map<K, bool>, after: map<K, bool>) {
    forall key | key in before :: before[key] ==> Flag(after, key)
  }

  /** One key at two moments: still usable, same resource, no version lapsed, nothing taken away. */
  ghost predicate KeyGrows(
    before: ManagementKeyVerifier, earlier: Instant, after: ManagementKeyVerifier, later: Instant)
  {
    && (Usable(before, earlier) ==> Usable(after, later))
    && before.resourceScope == after.resourceScope
    && before.scopes <= after.scopes
    && (forall version :: VersionAccepted(before, version, earlier) ==> VersionAccepted(after, version, later))
    && (DecodeCeiling(before.capabilityCeiling).Some? ==>
          && DecodeCeiling(after.capabilityCeiling).Some?
          && DecodeCeiling(before.capabilityCeiling).value <= DecodeCeiling(after.capabilityCeiling).value)
  }

  ghost predicate IssuerGrows(before: ExternalIssuer, after: ExternalIssuer) {
    && (before.active ==> after.active)
    && before.managementScopes <= after.managementScopes
    && before.managementCapabilities <= after.managementCapabilities
    && (forall id ::
          Within(AsOptional(before.organizationCeiling), id) ==> Within(AsOptional(after.organizationCeiling), id))
  }

  ghost predicate Grows(before: Generation, earlier: Instant, after: Generation, later: Instant) {
    && FlagsGrow(before.activeUsers, after.activeUsers)
    && FlagsGrow(before.activeOrganizations, after.activeOrganizations)
    && FlagsGrow(before.systemAdministratorUsers, after.systemAdministratorUsers)
    && FlagsGrow(before.systemAdministratorKeys, after.systemAdministratorKeys)
    && (forall member | member in before.memberships ::
          member in after.memberships && AtLeast(after.memberships[member], before.memberships[member]))
    && (forall id | id in before.managementKeysById ::
          && id in after.managementKeysById
          && KeyGrows(before.managementKeysById[id], earlier, after.managementKeysById[id], later))
    && (forall id | id in before.issuersById ::
          id in after.issuersById && IssuerGrows(before.issuersById[id], after.issuersById[id]))
    && (forall binding | binding in before.externalBindings ::
          binding in after.externalBindings && after.externalBindings[binding] == before.externalBindings[binding])
  }

  lemma StrongerRoleAllowsMore(stronger: OrganizationRole, weaker: OrganizationRole, capability: Capability)
    requires AtLeast(stronger, weaker) && RoleAllows(weaker, capability)
    ensures RoleAllows(stronger, capability)
  {
  }

  lemma MemberCapabilitiesGrow(
    before: Generation, after: Generation, earlier: Instant, later: Instant, userId: UserId, id: OrganizationId,
    small: set<Capability>, large: set<Capability>,
    few: Option<seq<OrganizationId>>, many: Option<seq<OrganizationId>>)
    requires Grows(before, earlier, after, later) && small <= large
    requires Within(few, id) ==> Within(many, id)
    ensures MemberCapabilities(before, userId, id, small, few) <= MemberCapabilities(after, userId, id, large, many)
  {
    var member := (id, userId);
    forall c | c in MemberCapabilities(before, userId, id, small, few)
      ensures c in MemberCapabilities(after, userId, id, large, many)
    {
      StrongerRoleAllowsMore(after.memberships[member], before.memberships[member], c);
    }
  }

  lemma LocalUserPowersGrow(
    config: Config, before: Generation, earlier: Instant, after: Generation, later: Instant, row: WebSession,
    ceiling: set<Capability>)
    requires Grows(before, earlier, after, later) && row.principal.LocalUser?
    requires ValidateSessionPrincipal(config, before, row, ceiling, earlier).Ok?
    ensures ValidateSessionPrincipal(config, after, row, ceiling, later).Ok?
    ensures Below(ValidateSessionPrincipal(config, before, row, ceiling, earlier).value,
                  ValidateSessionPrincipal(config, after, row, ceiling, later).value)
  {
    var issuerId := row.externalIssuerId.value;
    assert IssuerGrows(before.issuersById[issuerId], after.issuersById[issuerId]);
    assert Flag(after.activeUsers, row.principal.userId);
    assert (issuerId, row.externalSubject.value) in after.externalBindings;
    var old' := ValidateSessionPrincipal(config, before, row, ceiling, earlier).value;
    var new' := ValidateSessionPrincipal(config, after, row, ceiling, later).value;
    forall id: OrganizationId
      ensures Within(old'.organizations, id) ==> Within(new'.organizations, id)
      ensures CapabilitiesAt(old'.organizationCapabilities, id) <= CapabilitiesAt(new'.organizationCapabilities, id)
    {
      LocalUserGrowsAt(before, earlier, after, later, row, old'.capabilities, new'.capabilities, id);
    }
  }

  lemma KeyPowersGrow(
    config: Config, before: Generation, earlier: Instant, after: Generation, later: Instant, row: WebSession,
    ceiling: set<Capability>)
    requires Grows(before, earlier, after, later)
    requires row.principal.DeploymentManagementApiKey? || row.principal.OrganizationManagementApiKey?
    requires ValidateSessionPrincipal(config, before, row, ceiling, earlier).Ok?
    ensures ValidateSessionPrincipal(config, after, row, ceiling, later).Ok?
    ensures Below(ValidateSessionPrincipal(config, before, row, ceiling, earlier).value,
                  ValidateSessionPrincipal(config, after, row, ceiling, later).value)
  {
    var keyId := row.principal.keyId;
    assert KeyGrows(before.managementKeysById[keyId], earlier, after.managementKeysById[keyId], later);
    assert VersionAccepted(after.managementKeysById[keyId], row.acceptedKeyVersionId, later);
    assert ScopeActive(after, row.resourceScope);
    assert KeyIsAdministrator(before, row.principal) ==> KeyIsAdministrator(after, row.principal);
  }

  /** The validated powers of one stored row only grow, and stay valid. */
  lemma ValidatedPowersGrow(
    config: Config, before: Generation, earlier: Instant, after: Generation, later: Instant, row: WebSession,
    ceiling: set<Capability>)
    requires Grows(before, earlier, after, later)
    requires ValidateSessionPrincipal(config, before, row, ceiling, earlier).Ok?
    ensures ValidateSessionPrincipal(config, after, row, ceiling, later).Ok?
    ensures Below(ValidateSessionPrincipal(config, before, row, ceiling, earlier).value,
                  ValidateSessionPrincipal(config, after, row, ceiling, later).value)
  {
    if row.principal.LocalUser? {
      LocalUserPowersGrow(config, before, earlier, after, later, row, ceiling);
    } else if row.principal.DeploymentManagementApiKey? || row.principal.OrganizationManagementApiKey? {
      KeyPowersGrow(config, before, earlier, after, later, row, ceiling);
    }
  }

  lemma LocalUserGrowsAt(
    before: Generation, earlier: Instant, after: Generation, later: Instant, row: WebSession,
    small: set<Capability>, large: set<Capability>, id: OrganizationId)
    requires Grows(before, earlier, after, later) && small <= large
    requires row.principal.LocalUser? && row.externalIssuerId.Some? && row.externalIssuerId.value in before.issuersById
    ensures var issuerId, userId := row.externalIssuerId.value, row.principal.userId;
            var few := MeetOrganizations(row.capturedOrganizations,
                                         AsOptional(before.issuersById[issuerId].organizationCeiling));
            var many := MeetOrganizations(row.capturedOrganizations,
                                          AsOptional(after.issuersById[issuerId].organizationCeiling));
            && (Within(few, id) ==> Within(many, id))
            && CapabilitiesAt(MeetCapabilityMaps(row.capturedOrganizationCapabilities,
                                                 MemberAuthority(before, userId, small, few)), id)
            <= CapabilitiesAt(MeetCapabilityMaps(row.capturedOrganizationCapabilities,
                                                 MemberAuthority(after, userId, large, many)), id)
  {
    var issuerId, userId := row.externalIssuerId.value, row.principal.userId;
    var small', large' := AsOptional(before.issuersById[issuerId].organizationCeiling),
                          AsOptional(after.issuersById[issuerId].organizationCeiling);
    var few := MeetOrganizations(row.capturedOrganizations, small');
    var many := MeetOrganizations(row.capturedOrganizations, large');
    MeetOrganizationsAt(row.capturedOrganizations, small', id);
    MeetOrganizationsAt(row.capturedOrganizations, large', id);
    MemberAuthorityAt(before, userId, small, few, id);
    MemberAuthorityAt(after, userId, large, many, id);
    MeetMapsAt(row.capturedOrganizationCapabilities, MemberAuthority(before, userId, small, few), id);
    MeetMapsAt(row.capturedOrganizationCapabilities, MemberAuthority(after, userId, large, many), id);
    MemberCapabilitiesGrow(before, after, earlier, later, userId, id, small, large, few, many);
  }

  /** Whatever a member of an organization holds stays inside the credential's own ceiling. */
  lemma MapStaysInsideCeiling(
    config: Config, generation: Generation, row: WebSession, ceiling: set<Capability>, now: Instant, id: OrganizationId)
    requires row.principal.LocalUser?
    requires ValidateSessionPrincipal(config, generation, row, ceiling, now).Ok?
    ensures var validated := ValidateSessionPrincipal(config, generation, row, ceiling, now).value;
            CapabilitiesAt(validated.organizationCapabilities, id) <= validated.capabilities
  {
  }

  lemma KeyTestGrows(
    before: ManagementKeyVerifier, earlier: Instant, after: ManagementKeyVerifier, later: Instant, c: Capability)
    requires KeyGrows(before, earlier, after, later)
    requires DecodeCeiling(before.capabilityCeiling).Some? && ValueHasCapability(before.capabilityCeiling, c)
    ensures ValueHasCapability(after.capabilityCeiling, c)
  {
    RawTestAgreesWithDecodedSet(before.capabilityCeiling, c);
    RawTestAgreesWithDecodedSet(after.capabilityCeiling, c);
  }

  /** The two identities of one row under two generations, with everything that authorization reads of them. */
  ghost predicate IdentityGrows(weak: Identity, strong: Identity) {
    && weak.principal == strong.principal
    && weak.resourceScope == strong.resourceScope
    && Below(weak.authority, strong.authority)
    && FlagsGrow(weak.generation.activeOrganizations, strong.generation.activeOrganizations)
    && (forall c :: PrincipalCapabilityAllows(weak, c) ==> PrincipalCapabilityAllows(strong, c))
    && (weak.principal.LocalUser? ==> forall id ::
          CapabilitiesAt(weak.authority.organizationCapabilities, id) <= strong.authority.capabilities)
  }

  lemma TargetStaysAllowed(weak: Identity, strong: Identity, target: Target)
    requires IdentityGrows(weak, strong) && TargetAllowed(weak, target)
    ensures TargetAllowed(strong, target)
  {
    if target.OrganizationTarget? && weak.principal.LocalUser? {
      var id := target.organizationId;
      assert CapabilitiesAt(weak.authority.organizationCapabilities, id)
          <= CapabilitiesAt(strong.authority.organizationCapabilities, id);
      assert CapabilitiesAt(weak.authority.organizationCapabilities, id) <= strong.authority.capabilities;
    }
  }

  /**
   * A request that a stored session was allowed stays allowed under every larger generation for as
   * long as the row has not expired, also when the principal becomes an administrator in between and
   * authorization takes its other branch.
   */
  lemma AdmissionIsMonotone(
    config: Config, before: Generation, earlier: Instant, after: Generation, later: Instant,
    id: SessionId, row: WebSession, required: set<ManagementScope>, target: Target)
    requires Grows(before, earlier, after, later)
    requires row.expiresAt > later
    requires Admits(config, before, id, row, earlier, required, target)
    ensures Admits(config, after, id, row, later, required, target)
  {
    var ceiling := DecodeCeiling(row.capturedCeiling).value;
    ValidatedPowersGrow(config, before, earlier, after, later, row, ceiling);
    var weak := AuthenticateSession(config, before, id, row, earlier).value;
    var strong := AuthenticateSession(config, after, id, row, later).value;
    forall c | PrincipalCapabilityAllows(weak, c) ensures PrincipalCapabilityAllows(strong, c) {
      if weak.principal.DeploymentManagementApiKey? || weak.principal.OrganizationManagementApiKey? {
        var keyId := weak.principal.keyId;
        KeyTestGrows(before.managementKeysById[keyId], earlier, after.managementKeysById[keyId], later, c);
      }
    }
    if row.principal.LocalUser? {
      forall organization: OrganizationId
        ensures CapabilitiesAt(weak.authority.organizationCapabilities, organization) <= strong.authority.capabilities
      {
        MapStaysInsideCeiling(config, before, row, ceiling, earlier, organization);
      }
    }
    TargetStaysAllowed(weak, strong, target);
  }
}
