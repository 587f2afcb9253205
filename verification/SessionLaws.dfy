/** What capture, the meet with the current generation and authorization promise together. */
module SessionLaws {
  import opened Wrappers
  import opened Authorization
  import opened Sessions

  // ---- The lattice of powers -----------------------------------------------------------------------

  function CapabilitiesAt(capabilities: map<OrganizationId, set<Capability>>, id: OrganizationId): set<Capability> {
    if id in capabilities then capabilities[id] else {}
  }

  ghost predicate Below(lower: Powers, upper: Powers) {
    && lower.scopes <= upper.scopes
    && lower.capabilities <= upper.capabilities
    && (lower.systemAdministrator ==> upper.systemAdministrator)
    && (forall id :: CapabilitiesAt(lower.organizationCapabilities, id)
                  <= CapabilitiesAt(upper.organizationCapabilities, id))
    && (forall id :: Within(lower.organizations, id) ==> Within(upper.organizations, id))
  }

  /** What the principal of a stored session holds now, apart from what the session captured. */
  function CurrentPowers(generation: Generation, row: WebSession): Option<Powers> {
    match row.principal
    case SeedAdmin => Some(SeedAuthority())
    case DeploymentManagementApiKey(_) | OrganizationManagementApiKey(_, _) =>
      var keyId := row.principal.keyId;
      if keyId !in generation.managementKeysById then None
      else
        var verifier := generation.managementKeysById[keyId];
        var ceiling := DecodeCeiling(verifier.capabilityCeiling);
        if ceiling.None? then None
        else Some(Powers(verifier.scopes, ceiling.value, KeyIsAdministrator(generation, row.principal), map[],
                         KeyOrganizations(verifier.resourceScope)))
    case LocalUser(userId) =>
      if row.externalIssuerId.None? || row.externalIssuerId.value !in generation.issuersById then None
      else
        var issuer := generation.issuersById[row.externalIssuerId.value];
        var organizations := AsOptional(issuer.organizationCeiling);
        Some(Powers(issuer.managementScopes, issuer.managementCapabilities,
                    UserIsAdministrator(generation, userId, issuer.managementCapabilities),
                    MemberAuthority(generation, userId, issuer.managementCapabilities, organizations),
                    organizations))
    case OrganizationGatewayApiKey(_, _) => None
  }

  function CapturedPowers(row: WebSession, ceiling: set<Capability>): Powers {
    Powers(row.capturedScopes, ceiling, row.capturedSystemAdministrator, row.capturedOrganizationCapabilities,
           row.capturedOrganizations)
  }

  /** What every stored row satisfies, whichever of the two creators wrote it. */
  ghost predicate WellFormed(row: WebSession) {
    && DecodeCeiling(row.capturedCeiling).Some?
    && var ceiling := DecodeCeiling(row.capturedCeiling).value;
       match row.principal
       case SeedAdmin => row.capturedOrganizationCapabilities == map[]
       case DeploymentManagementApiKey(_) | OrganizationManagementApiKey(_, _) =>
         && row.capturedOrganizationCapabilities == map[]
         && row.capturedOrganizations == KeyOrganizations(row.resourceScope)
       case LocalUser(_) =>
         && (row.capturedSystemAdministrator ==> SystemAdministration in ceiling)
         && (forall id | id in row.capturedOrganizationCapabilities ::
               && row.capturedOrganizationCapabilities[id] <= ceiling
               && Within(row.capturedOrganizations, id))
       case OrganizationGatewayApiKey(_, _) => false
  }

  lemma MemberAuthorityAt(
    generation: Generation, userId: UserId, ceiling: set<Capability>, organizations: Option<seq<OrganizationId>>,
    id: OrganizationId)
    ensures CapabilitiesAt(MemberAuthority(generation, userId, ceiling, organizations), id)
         == MemberCapabilities(generation, userId, id, ceiling, organizations)
  {
  }

  lemma MeetMapsAt(
    captured: map<OrganizationId, set<Capability>>, current: map<OrganizationId, set<Capability>>, id: OrganizationId)
    ensures CapabilitiesAt(MeetCapabilityMaps(captured, current), id)
         == CapabilitiesAt(captured, id) * CapabilitiesAt(current, id)
  {
  }

  lemma MeetOrganizationsAt(
    captured: Option<seq<OrganizationId>>, current: Option<seq<OrganizationId>>, id: OrganizationId)
    ensures Within(MeetOrganizations(captured, current), id) <==> Within(captured, id) && Within(current, id)
  {
  }

  /** No stored row, well formed or not, ever yields more than it captured. */
  lemma NeverExceedsCapture(
    config: Config, generation: Generation, row: WebSession, ceiling: set<Capability>, now: Instant)
    requires ValidateSessionPrincipal(config, generation, row, ceiling, now).Ok?
    ensures Below(ValidateSessionPrincipal(config, generation, row, ceiling, now).value, CapturedPowers(row, ceiling))
  {
  }

  /**
   * The powers of an accepted session are the greatest lower bound of what was captured and what the
   * principal holds now, and the organization map carries no empty entry that the row did not hold.
   */
  lemma ValidatedPowersAreTheMeet(
    config: Config, generation: Generation, row: WebSession, now: Instant, other: Powers)
    requires WellFormed(row)
    requires ValidateSessionPrincipal(config, generation, row, DecodeCeiling(row.capturedCeiling).value, now).Ok?
    ensures var ceiling := DecodeCeiling(row.capturedCeiling).value;
            var validated := ValidateSessionPrincipal(config, generation, row, ceiling, now).value;
            var current := CurrentPowers(generation, row);
            && current.Some?
            && Below(validated, CapturedPowers(row, ceiling))
            && Below(validated, current.value)
            && (Below(other, CapturedPowers(row, ceiling)) && Below(other, current.value) ==> Below(other, validated))
            && (forall id | id in validated.organizationCapabilities :: validated.organizationCapabilities[id] != {})
  {
    var ceiling := DecodeCeiling(row.capturedCeiling).value;
    var validated := ValidateSessionPrincipal(config, generation, row, ceiling, now).value;
    match row.principal {
      case SeedAdmin =>
        forall c: Capability ensures c in ALL {
          AllIsComplete(c);
        }
      case LocalUser(userId) =>
        var current := CurrentPowers(generation, row).value;
        forall id: OrganizationId
          ensures CapabilitiesAt(validated.organizationCapabilities, id)
               == CapabilitiesAt(row.capturedOrganizationCapabilities, id)
                  * CapabilitiesAt(current.organizationCapabilities, id)
          ensures Within(validated.organizations, id) <==>
                  Within(row.capturedOrganizations, id) && Within(current.organizations, id)
        {
          MemberMeetAt(generation, row, ceiling, id);
        }
      case _ =>
    }
  }

  lemma MemberMeetAt(generation: Generation, row: WebSession, ceiling: set<Capability>, id: OrganizationId)
    requires WellFormed(row) && ceiling == DecodeCeiling(row.capturedCeiling).value
    requires row.principal.LocalUser? && CurrentPowers(generation, row).Some?
    ensures var issuer := generation.issuersById[row.externalIssuerId.value];
            var current := CurrentPowers(generation, row).value;
            var organizations := MeetOrganizations(row.capturedOrganizations, AsOptional(issuer.organizationCeiling));
            var member := MemberAuthority(generation, row.principal.userId,
                                          ceiling * issuer.managementCapabilities, organizations);
            && CapabilitiesAt(MeetCapabilityMaps(row.capturedOrganizationCapabilities, member), id)
            == CapabilitiesAt(row.capturedOrganizationCapabilities, id)
               * CapabilitiesAt(current.organizationCapabilities, id)
            && (Within(organizations, id) <==>
                Within(row.capturedOrganizations, id) && Within(current.organizations, id))
  {
    var issuer := generation.issuersById[row.externalIssuerId.value];
    var organizations := MeetOrganizations(row.capturedOrganizations, AsOptional(issuer.organizationCeiling));
    var capabilities := ceiling * issuer.managementCapabilities;
    var userId := row.principal.userId;
    MeetOrganizationsAt(row.capturedOrganizations, AsOptional(issuer.organizationCeiling), id);
    MemberAuthorityAt(generation, userId, capabilities, organizations, id);
    MemberAuthorityAt(generation, userId, issuer.managementCapabilities, AsOptional(issuer.organizationCeiling), id);
    MeetMapsAt(row.capturedOrganizationCapabilities,
               MemberAuthority(generation, userId, capabilities, organizations), id);
  }

  // ---- Capture and reload --------------------------------------------------------------------------

  /** The publisher files every key under each of its lookups and under its id, and every issuer likewise. */
  ghost predicate Consistent(generation: Generation) {
    && (forall text | text in generation.managementKeys ::
          var verifier := generation.managementKeys[text];
          && verifier.keyId in generation.managementKeysById
          && generation.managementKeysById[verifier.keyId] == verifier)
    && (forall name | name in generation.issuersByName ::
          var issuer := generation.issuersByName[name];
          && issuer.id in generation.issuersById
          && generation.issuersById[issuer.id] == issuer)
  }

  ghost predicate SameDecisions(a: Identity, b: Identity) {
    forall required, target :: Authorize(a, required, target) <==> Authorize(b, required, target)
  }

  lemma CreatedKeyRowIsWellFormed(
    config: Config, generation: Generation, material: Option<KeyMaterial>, now: Instant)
    requires Consistent(generation)
    requires AuthenticateManagementKey(config, generation, material, now).Ok?
    ensures var direct := AuthenticateManagementKey(config, generation, material, now).value;
            var row := KeySessionRow(config, direct, now);
            && row.Ok? && WellFormed(row.value)
            && CapturedPowers(row.value, DecodeCeiling(row.value.capturedCeiling).value) == direct.authority
  {
  }

  lemma CreatedExternalRowIsWellFormed(
    config: Config, generation: Generation, name: string, subject: string, claims: Claims, now: Instant)
    requires AuthenticateExternal(generation, name, subject, claims).Ok?
    ensures var direct := AuthenticateExternal(generation, name, subject, claims).value;
            ExternalSessionRow(config, direct, now).Ok? && WellFormed(ExternalSessionRow(config, direct, now).value)
  {
    var direct := AuthenticateExternal(generation, name, subject, claims).value;
    StoredCeilingMeets(direct.authority.capabilities, direct.authority.capabilities);
  }

  /**
   * A seed or management-key session opened at once carries exactly the powers of the direct identity
   * and decides every request alike. It opens exactly when the configured lifetime is not zero.
   */
  lemma KeySessionReloadsExactly(
    config: Config, generation: Generation, material: Option<KeyMaterial>, id: SessionId, now: Instant)
    requires Consistent(generation)
    requires AuthenticateManagementKey(config, generation, material, now).Ok?
    ensures var direct := AuthenticateManagementKey(config, generation, material, now).value;
            var row := KeySessionRow(config, direct, now);
            && row.Ok?
            && var session := AuthenticateSession(config, generation, id, row.value, now);
               && (session.Ok? <==> config.sessionLifetime > 0)
               && (session.Ok? ==> session.value.authority == direct.authority && SameDecisions(session.value, direct))
  {
    CreatedKeyRowIsWellFormed(config, generation, material, now);
    var direct := AuthenticateManagementKey(config, generation, material, now).value;
    var row := KeySessionRow(config, direct, now).value;
    var ceiling := DecodeCeiling(row.capturedCeiling).value;
    var validated := ValidateSessionPrincipal(config, generation, row, ceiling, now);
    if direct.principal.SeedAdmin? {
      assert validated.value.scopes == direct.authority.scopes;
    } else {
      var verifier := generation.managementKeys[material.value.lookupText];
      assert generation.managementKeysById[direct.principal.keyId] == verifier;
      assert VersionAccepted(verifier, direct.acceptedKeyVersionId, now);
      assert validated.value.scopes == direct.authority.scopes;
      assert validated.value.capabilities == direct.authority.capabilities;
    }
  }

  /**
   * An external session agrees with the token it was opened from on every request exactly when the
   * token does not carry effective system administration, or its claims left the issuer's whole
   * capability ceiling. Otherwise the stored name of administration reads back as every capability.
   */
  lemma ExternalSessionAgreesExactlyWhen(
    config: Config, generation: Generation, name: string, subject: string, claims: Claims, id: SessionId, now: Instant)
    requires Consistent(generation) && config.sessionLifetime > 0
    requires AuthenticateExternal(generation, name, subject, claims).Ok?
    ensures var direct := AuthenticateExternal(generation, name, subject, claims).value;
            var session := AuthenticateSession(config, generation, id,
                                               ExternalSessionRow(config, direct, now).value, now);
            var issuer := generation.issuersByName[name];
            && session.Ok?
            && (SameDecisions(session.value, direct) <==>
                !direct.authority.systemAdministrator || direct.authority.capabilities == issuer.managementCapabilities)
  {
    CreatedExternalRowIsWellFormed(config, generation, name, subject, claims, now);
    var direct := AuthenticateExternal(generation, name, subject, claims).value;
    var issuer := generation.issuersByName[name];
    var row := ExternalSessionRow(config, direct, now).value;
    var session := AuthenticateSession(config, generation, id, row, now).value;
    ExternalReload(config, generation, name, subject, claims, id, now);
    if direct.authority.systemAdministrator && direct.authority.capabilities != issuer.managementCapabilities {
      var widened :| widened in issuer.managementCapabilities && widened !in direct.authority.capabilities;
      assert Authorize(session, {}, System(widened)) && !Authorize(direct, {}, System(widened));
    } else {
      forall required, target
        ensures Authorize(session, required, target) <==> Authorize(direct, required, target)
      {
        ExternalDecisionAgrees(session, direct, required, target);
      }
    }
  }

  /** An external session keeps every component of the token's powers except the capability ceiling. */
  lemma ExternalReload(
    config: Config, generation: Generation, name: string, subject: string, claims: Claims, id: SessionId, now: Instant)
    requires Consistent(generation) && config.sessionLifetime > 0
    requires AuthenticateExternal(generation, name, subject, claims).Ok?
    ensures var direct := AuthenticateExternal(generation, name, subject, claims).value;
            var session := AuthenticateSession(config, generation, id,
                                               ExternalSessionRow(config, direct, now).value, now);
            && session.Ok?
            && var before, after := direct.authority, session.value.authority;
               && after.scopes == before.scopes
               && after.systemAdministrator == before.systemAdministrator
               && after.capabilities == (if SystemAdministration in before.capabilities
                                         then generation.issuersByName[name].managementCapabilities
                                         else before.capabilities)
               && (forall organization :: && (Within(after.organizations, organization) <==>
                                              Within(before.organizations, organization))
                                          && CapabilitiesAt(after.organizationCapabilities, organization)
                                          == CapabilitiesAt(before.organizationCapabilities, organization))
  {
    CreatedExternalRowIsWellFormed(config, generation, name, subject, claims, now);
    var direct := AuthenticateExternal(generation, name, subject, claims).value;
    var issuer := generation.issuersByName[name];
    var row := ExternalSessionRow(config, direct, now).value;
    var before := direct.authority;
    StoredCeilingMeets(before.capabilities, issuer.managementCapabilities);
    var session := AuthenticateSession(config, generation, id, row, now).value;
    var after := session.authority;
    assert after.scopes == before.scopes;
    assert after.capabilities == if SystemAdministration in before.capabilities
                                 then issuer.managementCapabilities else before.capabilities;
    forall organization: OrganizationId
      ensures Within(after.organizations, organization) <==> Within(before.organizations, organization)
      ensures CapabilitiesAt(after.organizationCapabilities, organization)
           == CapabilitiesAt(before.organizationCapabilities, organization)
    {
      MeetOrganizationsAt(before.organizations, AsOptional(issuer.organizationCeiling), organization);
      MemberMapReloads(generation, direct.principal.userId, before.capabilities, after.capabilities,
                       before.organizations, after.organizations, organization);
    }
  }

  /** Meeting a captured organization map with one under a ceiling that is no smaller gives the captured one back. */
  lemma MemberMapReloads(
    generation: Generation, userId: UserId, small: set<Capability>, large: set<Capability>,
    captured: Option<seq<OrganizationId>>, current: Option<seq<OrganizationId>>, id: OrganizationId)
    requires small <= large && (Within(captured, id) <==> Within(current, id))
    ensures CapabilitiesAt(MeetCapabilityMaps(MemberAuthority(generation, userId, small, captured),
                                              MemberAuthority(generation, userId, large, current)), id)
         == CapabilitiesAt(MemberAuthority(generation, userId, small, captured), id)
  {
  }

  lemma ExternalDecisionAgrees(session: Identity, direct: Identity, required: set<ManagementScope>, target: Target)
    requires session.principal == direct.principal && direct.principal.LocalUser?
    requires session.generation == direct.generation && session.resourceScope == direct.resourceScope
    requires session.authority.scopes == direct.authority.scopes
    requires session.authority.systemAdministrator == direct.authority.systemAdministrator
    requires direct.authority.systemAdministrator ==> session.authority.capabilities == direct.authority.capabilities
    requires forall organization ::
               && (Within(session.authority.organizations, organization) <==>
                   Within(direct.authority.organizations, organization))
               && CapabilitiesAt(session.authority.organizationCapabilities, organization)
               == CapabilitiesAt(direct.authority.organizationCapabilities, organization)
    ensures Authorize(session, required, target) <==> Authorize(direct, required, target)
  {
    if target.OrganizationTarget? {
      var id := target.organizationId;
      assert CapabilitiesAt(session.authority.organizationCapabilities, id)
          == CapabilitiesAt(direct.authority.organizationCapabilities, id);
    }
  }

  // A token narrowed to administration alone, by an issuer that could also grant identity management.

  const NARROWING_ISSUER := ExternalIssuer(IssuerId(0), true, true, {Read}, {SystemAdministration, ManageIdentity},
                                           AllAuthorized, OptionalNarrowing, false, true, false)

  const NARROWING_GENERATION :=
    Generation(map[UserId(0) := true], map[], map[], map[], map[], map[UserId(0) := true], map[],
               map["issuer" := NARROWING_ISSUER], map[IssuerId(0) := NARROWING_ISSUER],
               map[(IssuerId(0), "subject") := UserId(0)])

  const NARROWING_CLAIMS := Claims(Absent, Listed({SystemAdministration}), Absent)

  lemma NarrowedToken()
    ensures Consistent(NARROWING_GENERATION)
    ensures var direct := AuthenticateExternal(NARROWING_GENERATION, "issuer", "subject", NARROWING_CLAIMS);
            direct.Ok? && direct.value.authority.capabilities == {SystemAdministration}
            && direct.value.authority.systemAdministrator
  {
  }

  /** The session of that token administers identity, the token itself does not. */
  lemma NarrowedTokenSessionWidens(config: Config, id: SessionId, now: Instant)
    requires config.sessionLifetime > 0
    ensures var direct := AuthenticateExternal(NARROWING_GENERATION, "issuer", "subject", NARROWING_CLAIMS);
            && direct.Ok?
            && !Authorize(direct.value, {}, System(ManageIdentity))
            && var row := ExternalSessionRow(config, direct.value, now);
               row.Ok? && Admits(config, NARROWING_GENERATION, id, row.value, now, {}, System(ManageIdentity))
  {
    NarrowedToken();
    ExternalReload(config, NARROWING_GENERATION, "issuer", "subject", NARROWING_CLAIMS, id, now);
  }
}
