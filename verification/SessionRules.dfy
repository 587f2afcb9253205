/**
 * Exactly when a credential or a stored session is accepted, what it then holds and what it may do, stated on
 * the fields of keys, issuers, rows and generations alone.
 */
module SessionRules {
  import opened Wrappers
  import opened Authorization
  import opened Sessions

  // ---- Ceilings as they are stored -----------------------------------------------------------------------

  /** Every capability is found by its name. */
  lemma NamesParse(c: Capability)
    ensures Parse(Name(c)) == Some(c)
  {
    AllIsComplete(c);
    NamesAreDistinct(Parse(Name(c)).value, c);
  }

  /** A list of names, every one of which is some capability's. */
  ghost predicate IsReadable(ceiling: Value) {
    ceiling.List? && forall item :: item in ceiling.items ==> item.Text? && exists c: Capability :: item.text == Name(c)
  }

  /** The ceiling lists the capability by name, or administration, which stands for all. */
  predicate Lists(ceiling: Value, c: Capability) {
    ceiling.List? && (Text(Name(c)) in ceiling.items || Text("system_administration") in ceiling.items)
  }

  lemma GrantedExactlyWhenNamed(item: Value)
    ensures Granted(item).Some? <==> item.Text? && exists c: Capability :: item.text == Name(c)
  {
    AllIsComplete(SystemAdministration);
    if item.Text? && item.text == "system_administration" {
      assert item.text == Name(SystemAdministration);
    } else if item.Text? {
      forall c: Capability ensures c in ALL_IN_ORDER {
        AllIsComplete(c);
      }
    }
  }

  /** A ceiling decodes exactly when it is readable, and then to exactly what it lists. */
  lemma CeilingDecodesExactlyWhen(ceiling: Value)
    ensures DecodeCeiling(ceiling).Some? <==> IsReadable(ceiling)
    ensures forall c | DecodeCeiling(ceiling).Some? :: c in DecodeCeiling(ceiling).value <==> Lists(ceiling, c)
    ensures forall c :: ValueHasCapability(ceiling, c) <==> Lists(ceiling, c)
  {
    if ceiling.List? {
      var items, grants := ceiling.items, Grants(ceiling.items);
      UnionMembership(grants, SystemAdministration);
      forall i | 0 <= i < |items|
        ensures grants[i].Some? <==> items[i].Text? && exists c: Capability :: items[i].text == Name(c)
      {
        GrantedExactlyWhenNamed(items[i]);
      }
      assert forall i :: 0 <= i < |items| ==> items[i] in items;
      assert forall c :: Mentions(Text(Name(c)), c) && Mentions(Text("system_administration"), c);
    }
    forall c | DecodeCeiling(ceiling).Some?
      ensures c in DecodeCeiling(ceiling).value <==> Lists(ceiling, c)
    {
      RawTestAgreesWithDecodedSet(ceiling, c);
    }
  }

  lemma EveryScopeIsListed(scope: ManagementScope)
    ensures scope in ALL_SCOPES
  {
  }

  // ---- Roles -------------------------------------------------------------------------------------------

  const EVERY_MEMBER: set<Capability> :=
    {ReadOrganization, ReadMembers, ReadManagementKeys, ReadGatewayKeys, ReadUsage, ReadAudit}

  const ADMINISTRATORS: set<Capability> :=
    {UpdateOrganization, ManageMembers, CreateManagementKeys, ManageManagementKeys, UpdateApiKeyPolicy,
     CreateGatewayKeys, ManageGatewayKeys, ManageByok, ConfigureRoutes, ConfigureBudgets}

  /** Every member reads, administrators and owners manage, only owners manage owners; no role is deployment-wide. */
  lemma RolesAllowExactly(role: OrganizationRole, c: Capability)
    ensures RoleAllows(role, c) <==>
            || c in EVERY_MEMBER
            || (c in ADMINISTRATORS && role != Member)
            || (c == ManageOwners && role == Owner)
  {
  }

  // ---- Fields ------------------------------------------------------------------------------------------

  predicate IsActiveOrganization(generation: Generation, id: OrganizationId) {
    id in generation.activeOrganizations && generation.activeOrganizations[id]
  }

  predicate IsKey(principal: Principal) {
    principal.DeploymentManagementApiKey? || principal.OrganizationManagementApiKey?
  }

  /** The key is filed, switched on, not expired, bound as the row says, and its version not rotated away. */
  predicate KeyIsHonoured(generation: Generation, row: WebSession, now: Instant)
    requires IsKey(row.principal)
  {
    && row.principal.keyId in generation.managementKeysById
    && var key := generation.managementKeysById[row.principal.keyId];
       && key.active
       && (key.expiresAt.None? || now < key.expiresAt.value)
       && key.resourceScope == row.resourceScope
       && (|| row.acceptedKeyVersionId == Some(key.acceptedVersionId)
           || (row.acceptedKeyVersionId == key.overlapVersionId
               && key.overlapUntil.Some? && now < key.overlapUntil.value))
       && (row.resourceScope.Deployment? || IsActiveOrganization(generation, row.resourceScope.organizationId))
  }

  /** The user is active and still bound to the row's subject at an active issuer. */
  predicate UserIsHonoured(generation: Generation, row: WebSession)
    requires row.principal.LocalUser?
  {
    var userId := row.principal.userId;
    && userId in generation.activeUsers && generation.activeUsers[userId]
    && row.externalIssuerId.Some? && row.externalSubject.Some?
    && row.externalIssuerId.value in generation.issuersById
    && generation.issuersById[row.externalIssuerId.value].active
    && var binding := (row.externalIssuerId.value, row.externalSubject.value);
       binding in generation.externalBindings && generation.externalBindings[binding] == userId
  }

  predicate IsHonoured(config: Config, generation: Generation, row: WebSession, now: Instant) {
    match row.principal
    case SeedAdmin => row.acceptedKeyVersionId == config.seedAdminKeyVersionId
    case LocalUser(_) => UserIsHonoured(generation, row)
    case OrganizationGatewayApiKey(_, _) => false
    case _ => KeyIsHonoured(generation, row, now)
  }

  predicate IsOpen(row: WebSession, now: Instant) {
    row.active && now < row.expiresAt
  }

  // ---- Which sessions are accepted -------------------------------------------------------------------------

  /** For every row, generation and time: when a session is accepted, and which error it meets otherwise. */
  lemma SessionIsAcceptedExactlyWhen(
    config: Config, generation: Generation, id: SessionId, row: WebSession, now: Instant)
    ensures var result := AuthenticateSession(config, generation, id, row, now);
            if !IsOpen(row, now) then result == Err(CredentialInactive)
            else if !IsReadable(row.capturedCeiling) then result == Err(Internal)
            else if row.principal.OrganizationGatewayApiKey? then result == Err(InvalidCredential)
            else if !IsHonoured(config, generation, row, now) then result == Err(CredentialInactive)
            else if IsKey(row.principal)
                    && !IsReadable(generation.managementKeysById[row.principal.keyId].capabilityCeiling)
            then result == Err(Internal)
            else if row.authenticatedBy != ManagementApiKeySession && row.authenticatedBy != ExternalSession
            then result == Err(Internal)
            else result.Ok?
  {
    CeilingDecodesExactlyWhen(row.capturedCeiling);
    if IsKey(row.principal) && row.principal.keyId in generation.managementKeysById {
      CeilingDecodesExactlyWhen(generation.managementKeysById[row.principal.keyId].capabilityCeiling);
    }
  }

  /** An accepted session speaks for the row's principal, with the row's evidence, under this generation. */
  lemma AcceptedSessionSpeaksForItsRow(
    config: Config, generation: Generation, id: SessionId, row: WebSession, now: Instant)
    requires AuthenticateSession(config, generation, id, row, now).Ok?
    ensures var session := AuthenticateSession(config, generation, id, row, now).value;
            && session.principal == row.principal && session.authenticatedBy == row.authenticatedBy
            && session.resourceScope == row.resourceScope && session.sessionId == Some(id)
            && session.acceptedKeyVersionId == row.acceptedKeyVersionId
            && session.externalIssuerId == row.externalIssuerId && session.externalSubject == row.externalSubject
            && session.generation == generation
  {
  }

  predicate HoldsIn(held: map<OrganizationId, set<Capability>>, id: OrganizationId, c: Capability) {
    id in held && c in held[id]
  }

  predicate IsListed(organizations: Option<seq<OrganizationId>>, id: OrganizationId) {
    organizations.Some? ==> id in organizations.value
  }

  predicate IssuerAllows(issuer: ExternalIssuer, id: OrganizationId) {
    match issuer.organizationCeiling
    case NoOrganizations => false
    case AllAuthorized => true
    case Organizations(ids) => id in ids
  }

  predicate IsAdministratorKey(generation: Generation, principal: Principal) {
    && principal.DeploymentManagementApiKey?
    && principal.keyId in generation.systemAdministratorKeys && generation.systemAdministratorKeys[principal.keyId]
  }

  predicate IsAdministratorUser(generation: Generation, userId: UserId) {
    userId in generation.systemAdministratorUsers && generation.systemAdministratorUsers[userId]
  }

  /** A member of an active organization whose role allows it. */
  predicate IsMemberWith(generation: Generation, userId: UserId, id: OrganizationId, c: Capability) {
    && (id, userId) in generation.memberships && IsActiveOrganization(generation, id)
    && var role := generation.memberships[(id, userId)];
       || c in EVERY_MEMBER
       || (c in ADMINISTRATORS && role != Member)
       || (c == ManageOwners && role == Owner)
  }

  lemma MemberAuthorityHolds(
    generation: Generation, userId: UserId, ceiling: set<Capability>, organizations: Option<seq<OrganizationId>>,
    id: OrganizationId, c: Capability)
    ensures HoldsIn(MemberAuthority(generation, userId, ceiling, organizations), id, c) <==>
            c in ceiling && IsListed(organizations, id) && IsMemberWith(generation, userId, id, c)
  {
    var held := MemberAuthority(generation, userId, ceiling, organizations);
    if (id, userId) in generation.memberships {
      RolesAllowExactly(generation.memberships[(id, userId)], c);
      if c in MemberCapabilities(generation, userId, id, ceiling, organizations) {
        assert id in held;
      }
    }
  }

  /** What an accepted seed session holds: what its row captured. */
  lemma SeedSessionHolds(
    config: Config, generation: Generation, id: SessionId, row: WebSession, now: Instant)
    requires AuthenticateSession(config, generation, id, row, now).Ok? && row.principal.SeedAdmin?
    ensures var powers := AuthenticateSession(config, generation, id, row, now).value.authority;
            && powers.scopes == row.capturedScopes
            && (forall c :: c in powers.capabilities <==> Lists(row.capturedCeiling, c))
            && powers.systemAdministrator == row.capturedSystemAdministrator
            && powers.organizationCapabilities == row.capturedOrganizationCapabilities
            && powers.organizations == row.capturedOrganizations
  {
    CeilingDecodesExactlyWhen(row.capturedCeiling);
    forall scope: ManagementScope ensures scope in ALL_SCOPES {
      EveryScopeIsListed(scope);
    }
  }

  /** What an accepted key session holds: in every component what its row captured and the key holds now. */
  lemma KeySessionHolds(
    config: Config, generation: Generation, id: SessionId, row: WebSession, now: Instant)
    requires AuthenticateSession(config, generation, id, row, now).Ok? && IsKey(row.principal)
    ensures row.principal.keyId in generation.managementKeysById
    ensures var powers := AuthenticateSession(config, generation, id, row, now).value.authority;
            var key := generation.managementKeysById[row.principal.keyId];
            && (forall scope :: scope in powers.scopes <==> scope in row.capturedScopes && scope in key.scopes)
            && (forall c :: c in powers.capabilities <==>
                  Lists(row.capturedCeiling, c) && Lists(key.capabilityCeiling, c))
            && (powers.systemAdministrator <==>
                row.capturedSystemAdministrator && IsAdministratorKey(generation, row.principal))
            && powers.organizationCapabilities == map[]
            && powers.organizations == row.capturedOrganizations
  {
    CeilingDecodesExactlyWhen(row.capturedCeiling);
    CeilingDecodesExactlyWhen(generation.managementKeysById[row.principal.keyId].capabilityCeiling);
  }

  /** What an accepted user's session holds, in every component and every organization. */
  lemma UserSessionHolds(
    config: Config, generation: Generation, id: SessionId, row: WebSession, now: Instant)
    requires AuthenticateSession(config, generation, id, row, now).Ok? && row.principal.LocalUser?
    ensures row.externalIssuerId.Some? && row.externalIssuerId.value in generation.issuersById
    ensures var powers := AuthenticateSession(config, generation, id, row, now).value.authority;
            var issuer := generation.issuersById[row.externalIssuerId.value];
            && (forall scope :: scope in powers.scopes <==>
                  scope in row.capturedScopes && scope in issuer.managementScopes)
            && (forall c :: c in powers.capabilities <==>
                  Lists(row.capturedCeiling, c) && c in issuer.managementCapabilities)
            && (powers.systemAdministrator <==>
                && row.capturedSystemAdministrator && IsAdministratorUser(generation, row.principal.userId)
                && SystemAdministration in issuer.managementCapabilities
                && Lists(row.capturedCeiling, SystemAdministration))
            && (forall organization :: IsListed(powers.organizations, organization) <==>
                  IsListed(row.capturedOrganizations, organization) && IssuerAllows(issuer, organization))
            && (forall organization, c :: HoldsIn(powers.organizationCapabilities, organization, c) <==>
                  && HoldsIn(row.capturedOrganizationCapabilities, organization, c)
                  && Lists(row.capturedCeiling, c) && c in issuer.managementCapabilities
                  && IsListed(row.capturedOrganizations, organization) && IssuerAllows(issuer, organization)
                  && IsMemberWith(generation, row.principal.userId, organization, c))
  {
    CeilingDecodesExactlyWhen(row.capturedCeiling);
    var ceiling := DecodeCeiling(row.capturedCeiling).value;
    var issuer := generation.issuersById[row.externalIssuerId.value];
    var powers := AuthenticateSession(config, generation, id, row, now).value.authority;
    assert powers.capabilities == ceiling * issuer.managementCapabilities;
    forall organization: OrganizationId
      ensures IsListed(powers.organizations, organization) <==>
              IsListed(row.capturedOrganizations, organization) && IssuerAllows(issuer, organization)
    {
    }
    forall organization: OrganizationId, c: Capability
      ensures HoldsIn(powers.organizationCapabilities, organization, c) <==>
              && HoldsIn(row.capturedOrganizationCapabilities, organization, c)
              && c in powers.capabilities && IsListed(powers.organizations, organization)
              && IsMemberWith(generation, row.principal.userId, organization, c)
    {
      MemberAuthorityHolds(generation, row.principal.userId, powers.capabilities, powers.organizations,
                           organization, c);
      MetMapHolds(row.capturedOrganizationCapabilities,
                  MemberAuthority(generation, row.principal.userId, powers.capabilities, powers.organizations),
                  organization, c);
    }
  }

  lemma MetMapHolds(
    captured: map<OrganizationId, set<Capability>>, current: map<OrganizationId, set<Capability>>,
    id: OrganizationId, c: Capability)
    ensures HoldsIn(MeetCapabilityMaps(captured, current), id, c) <==>
            HoldsIn(captured, id, c) && HoldsIn(current, id, c)
  {
    if HoldsIn(captured, id, c) && HoldsIn(current, id, c) {
      assert c in captured[id] * current[id];
    }
  }

  // ---- Which requests are allowed ------------------------------------------------------------------------

  /** The capability is inside the credential's ceiling and, for a key, inside the key's ceiling as it is filed. */
  predicate Commands(identity: Identity, c: Capability) {
    && c in identity.authority.capabilities
    && !identity.principal.OrganizationGatewayApiKey?
    && (IsKey(identity.principal) ==>
        && identity.principal.keyId in identity.generation.managementKeysById
        && Lists(identity.generation.managementKeysById[identity.principal.keyId].capabilityCeiling, c))
  }

  /** The organization is the one a credential is bound to, or one that a deployment credential may enter. */
  predicate Reaches(identity: Identity, id: OrganizationId) {
    match identity.resourceScope
    case Deployment => IsListed(identity.authority.organizations, id)
    case Organization(bound) => bound == id
  }

  lemma CommandsExactlyWhen(identity: Identity, c: Capability)
    ensures PrincipalCapabilityAllows(identity, c) <==> Commands(identity, c)
  {
    if IsKey(identity.principal) && identity.principal.keyId in identity.generation.managementKeysById {
      CeilingDecodesExactlyWhen(identity.generation.managementKeysById[identity.principal.keyId].capabilityCeiling);
    }
  }

  predicate MayUse(identity: Identity, target: Target) {
    match target
    case CurrentPrincipal => true
    case System(c) => identity.authority.systemAdministrator && Commands(identity, c)
    case OperationsTarget(write) =>
      && identity.authority.systemAdministrator
      && Operations in identity.authority.scopes
      && (write ==> Write in identity.authority.scopes && Commands(identity, RecoverOperations))
      && (!write ==> Read in identity.authority.scopes && Commands(identity, ReadOperations))
    case OrganizationTarget(id, c) =>
      && IsActiveOrganization(identity.generation, id)
      && if identity.authority.systemAdministrator && Reaches(identity, id) then Commands(identity, c)
         else
           || (identity.principal.LocalUser? && Reaches(identity, id)
               && HoldsIn(identity.authority.organizationCapabilities, id, c))
           || (identity.principal.OrganizationManagementApiKey? && identity.principal.organizationId == id
               && Commands(identity, c))
  }

  /** For every identity, scopes and target: what is demanded, and what suffices. */
  lemma AuthorizedExactlyWhen(identity: Identity, required: set<ManagementScope>, target: Target)
    ensures Authorize(identity, required, target) <==>
            (forall scope | scope in required :: scope in identity.authority.scopes) && MayUse(identity, target)
  {
    match target {
      case CurrentPrincipal =>
      case System(c) => CommandsExactlyWhen(identity, c);
      case OrganizationTarget(_, c) => CommandsExactlyWhen(identity, c);
      case OperationsTarget(_) =>
        CommandsExactlyWhen(identity, RecoverOperations);
        CommandsExactlyWhen(identity, ReadOperations);
    }
  }

  // ---- What stored sessions are refused ------------------------------------------------------------------

  /** The capability that a target is about, apart from the principal itself. */
  function Demanded(target: Target): Option<Capability> {
    match target
    case CurrentPrincipal => None
    case System(c) => Some(c)
    case OrganizationTarget(_, c) => Some(c)
    case OperationsTarget(write) => Some(if write then RecoverOperations else ReadOperations)
  }

  /**
   * A session is admitted to nothing that its row's ceiling does not list, nor, for a key, what the key's own
   * ceiling does not list now: no write to operations without recovering them, no read without reading them.
   */
  lemma NothingBeyondTheCeilings(
    config: Config, generation: Generation, id: SessionId, row: WebSession, now: Instant,
    required: set<ManagementScope>, target: Target)
    requires Admits(config, generation, id, row, now, required, target) && Demanded(target).Some?
    ensures Lists(row.capturedCeiling, Demanded(target).value)
    ensures IsKey(row.principal) ==>
              && row.principal.keyId in generation.managementKeysById
              && Lists(generation.managementKeysById[row.principal.keyId].capabilityCeiling, Demanded(target).value)
  {
    var session := AuthenticateSession(config, generation, id, row, now).value;
    AuthorizedExactlyWhen(session, required, target);
    SessionIsAcceptedExactlyWhen(config, generation, id, row, now);
    match row.principal {
      case SeedAdmin => SeedSessionHolds(config, generation, id, row, now);
      case LocalUser(_) => UserSessionHolds(config, generation, id, row, now);
      case _ => KeySessionHolds(config, generation, id, row, now);
    }
  }

  /** Deployment-wide targets take an effective administrator, whose row captured it and who still is one. */
  lemma OnlyAdministratorsLeaveTheirOrganizations(
    config: Config, generation: Generation, id: SessionId, row: WebSession, now: Instant,
    required: set<ManagementScope>, target: Target)
    requires Admits(config, generation, id, row, now, required, target)
    requires target.System? || target.OperationsTarget?
    ensures row.capturedSystemAdministrator
    ensures match row.principal
            case SeedAdmin => true
            case LocalUser(userId) => IsAdministratorUser(generation, userId)
            case _ => IsAdministratorKey(generation, row.principal)
  {
    var session := AuthenticateSession(config, generation, id, row, now).value;
    AuthorizedExactlyWhen(session, required, target);
    SessionIsAcceptedExactlyWhen(config, generation, id, row, now);
    match row.principal {
      case SeedAdmin => SeedSessionHolds(config, generation, id, row, now);
      case LocalUser(_) => UserSessionHolds(config, generation, id, row, now);
      case _ => KeySessionHolds(config, generation, id, row, now);
    }
  }

  /** The organization that the row is bound to, or for a deployment row one of those it captured. */
  predicate IsGiven(row: WebSession, id: OrganizationId) {
    match row.resourceScope
    case Deployment => IsListed(row.capturedOrganizations, id)
    case Organization(bound) => bound == id
  }

  /** An inactive organization is closed to everyone, and no credential leaves the organizations it is given. */
  lemma OrganizationsAreEnteredOnlyWithin(
    config: Config, generation: Generation, id: SessionId, row: WebSession, now: Instant,
    required: set<ManagementScope>, organization: OrganizationId, c: Capability)
    requires Admits(config, generation, id, row, now, required, OrganizationTarget(organization, c))
    ensures IsActiveOrganization(generation, organization)
    ensures row.principal.OrganizationManagementApiKey? ==> organization == row.principal.organizationId
    ensures row.principal.DeploymentManagementApiKey? ==> IsAdministratorKey(generation, row.principal)
    ensures !row.principal.OrganizationManagementApiKey? ==>
              IsGiven(row, organization)
  {
    var session := AuthenticateSession(config, generation, id, row, now).value;
    AuthorizedExactlyWhen(session, required, OrganizationTarget(organization, c));
    SessionIsAcceptedExactlyWhen(config, generation, id, row, now);
    match row.principal {
      case SeedAdmin => SeedSessionHolds(config, generation, id, row, now);
      case LocalUser(_) => UserSessionHolds(config, generation, id, row, now);
      case _ => KeySessionHolds(config, generation, id, row, now);
    }
  }

  /** For every key session that is accepted: exactly which requests are admitted, on the row and the key as filed. */
  lemma KeySessionAdmitsExactlyWhen(
    config: Config, generation: Generation, id: SessionId, row: WebSession, now: Instant,
    required: set<ManagementScope>, target: Target)
    requires AuthenticateSession(config, generation, id, row, now).Ok? && IsKey(row.principal)
    ensures row.principal.keyId in generation.managementKeysById
    ensures var key := generation.managementKeysById[row.principal.keyId];
            var scopes := row.capturedScopes * key.scopes;
            var administrator := row.capturedSystemAdministrator && IsAdministratorKey(generation, row.principal);
            Admits(config, generation, id, row, now, required, target) <==>
            && required <= scopes
            && (Demanded(target).Some? ==>
                && Lists(row.capturedCeiling, Demanded(target).value)
                && Lists(key.capabilityCeiling, Demanded(target).value))
            && match target
               case CurrentPrincipal => true
               case System(_) => administrator
               case OperationsTarget(write) =>
                 administrator && Operations in scopes && (if write then Write else Read) in scopes
               case OrganizationTarget(organization, _) =>
                 && IsActiveOrganization(generation, organization)
                 && match row.principal
                    case OrganizationManagementApiKey(bound, _) => bound == organization
                    case _ => administrator && IsGiven(row, organization)
  {
    var session := AuthenticateSession(config, generation, id, row, now).value;
    AuthorizedExactlyWhen(session, required, target);
    SessionIsAcceptedExactlyWhen(config, generation, id, row, now);
    KeySessionHolds(config, generation, id, row, now);
  }

  /** For every user's session that is accepted: exactly which requests are admitted, on the row and the issuer. */
  lemma UserSessionAdmitsExactlyWhen(
    config: Config, generation: Generation, id: SessionId, row: WebSession, now: Instant,
    required: set<ManagementScope>, target: Target)
    requires AuthenticateSession(config, generation, id, row, now).Ok? && row.principal.LocalUser?
    ensures row.externalIssuerId.Some? && row.externalIssuerId.value in generation.issuersById
    ensures var issuer := generation.issuersById[row.externalIssuerId.value];
            var scopes := row.capturedScopes * issuer.managementScopes;
            var administrator := && row.capturedSystemAdministrator && Lists(row.capturedCeiling, SystemAdministration)
                                 && SystemAdministration in issuer.managementCapabilities
                                 && IsAdministratorUser(generation, row.principal.userId);
            Admits(config, generation, id, row, now, required, target) <==>
            && required <= scopes
            && (Demanded(target).Some? ==>
                && Lists(row.capturedCeiling, Demanded(target).value)
                && Demanded(target).value in issuer.managementCapabilities)
            && match target
               case CurrentPrincipal => true
               case System(_) => administrator
               case OperationsTarget(write) =>
                 administrator && Operations in scopes && (if write then Write else Read) in scopes
               case OrganizationTarget(organization, c) =>
                 && IsActiveOrganization(generation, organization)
                 && IsGiven(row, organization)
                 && (row.resourceScope.Deployment? ==> IssuerAllows(issuer, organization))
                 && (|| administrator
                     || (&& HoldsIn(row.capturedOrganizationCapabilities, organization, c)
                         && IsListed(row.capturedOrganizations, organization) && IssuerAllows(issuer, organization)
                         && IsMemberWith(generation, row.principal.userId, organization, c)))
  {
    var session := AuthenticateSession(config, generation, id, row, now).value;
    AuthorizedExactlyWhen(session, required, target);
    UserSessionHolds(config, generation, id, row, now);
  }

  /** A key that was switched off, has expired, or was rotated past a session ends every session of it at once. */
  lemma DeadKeyAdmitsNothing(
    config: Config, generation: Generation, id: SessionId, row: WebSession, now: Instant,
    required: set<ManagementScope>, target: Target)
    requires IsKey(row.principal) && row.principal.keyId in generation.managementKeysById
    requires var key := generation.managementKeysById[row.principal.keyId];
             || !key.active
             || (key.expiresAt.Some? && key.expiresAt.value <= now)
             || (row.acceptedKeyVersionId != Some(key.acceptedVersionId)
                 && (row.acceptedKeyVersionId != key.overlapVersionId
                     || key.overlapUntil.None? || key.overlapUntil.value <= now))
    ensures !Admits(config, generation, id, row, now, required, target)
    ensures IsReadable(row.capturedCeiling) ==>
              AuthenticateSession(config, generation, id, row, now) == Err(CredentialInactive)
  {
    SessionIsAcceptedExactlyWhen(config, generation, id, row, now);
  }

  /** So does a user who was deactivated or unbound, and an issuer that was switched off. */
  lemma DeadUserAdmitsNothing(
    config: Config, generation: Generation, id: SessionId, row: WebSession, now: Instant,
    required: set<ManagementScope>, target: Target)
    requires row.principal.LocalUser? && row.externalIssuerId.Some? && row.externalSubject.Some?
    requires var userId, issuerId := row.principal.userId, row.externalIssuerId.value;
             var binding := (issuerId, row.externalSubject.value);
             || userId !in generation.activeUsers || !generation.activeUsers[userId]
             || issuerId !in generation.issuersById || !generation.issuersById[issuerId].active
             || binding !in generation.externalBindings || generation.externalBindings[binding] != userId
    ensures !Admits(config, generation, id, row, now, required, target)
  {
    SessionIsAcceptedExactlyWhen(config, generation, id, row, now);
  }

  // ---- Direct authentication -------------------------------------------------------------------------------

  /** The digest is the key's current one, or its overlapping one before that lapses; and the version it stands for. */
  predicate Presents(key: ManagementKeyVerifier, digest: string, version: string, now: Instant) {
    if digest == key.currentDigest then version == key.acceptedVersionId
    else
      && key.overlapDigest == Some(digest) && key.overlapVersionId == Some(version)
      && key.overlapUntil.Some? && now < key.overlapUntil.value
  }

  predicate IsSeed(config: Config, material: KeyMaterial) {
    config.seedAdminKeyVersionId == Some(material.seedVersionId)
  }

  /** A raw key is known when it is the seed key, or found by its lookup under a digest that stands for a version. */
  ghost predicate IsKnown(generation: Generation, material: KeyMaterial, now: Instant) {
    && material.lookupText in generation.managementKeys
    && exists version :: Presents(generation.managementKeys[material.lookupText], material.digest, version, now)
  }

  predicate IsLive(generation: Generation, key: ManagementKeyVerifier, now: Instant) {
    && key.active && (key.expiresAt.None? || now < key.expiresAt.value)
    && (key.resourceScope.Deployment? || IsActiveOrganization(generation, key.resourceScope.organizationId))
  }

  /** For every raw key, generation and time: when it authenticates, and which error it meets otherwise. */
  lemma KeyIsAcceptedExactlyWhen(
    config: Config, generation: Generation, material: Option<KeyMaterial>, now: Instant)
    ensures var result := AuthenticateManagementKey(config, generation, material, now);
            if material.None? then result == Err(InvalidCredential)
            else if IsSeed(config, material.value) then result.Ok? && result.value.principal == SeedAdmin
            else if !IsKnown(generation, material.value, now) then result == Err(InvalidCredential)
            else
              var key := generation.managementKeys[material.value.lookupText];
              if !IsLive(generation, key, now) then result == Err(CredentialInactive)
              else if !IsReadable(key.capabilityCeiling) then result == Err(Internal)
              else result.Ok? && IsKey(result.value.principal)
  {
    if material.Some? && material.value.lookupText in generation.managementKeys {
      var key := generation.managementKeys[material.value.lookupText];
      CeilingDecodesExactlyWhen(key.capabilityCeiling);
      var version := MatchedVersion(key, material.value.digest, now);
      if version.Some? {
        assert Presents(key, material.value.digest, version.value, now);
      }
    }
  }

  /** What an authenticated key is and holds. */
  lemma KeyIdentityHolds(config: Config, generation: Generation, material: Option<KeyMaterial>, now: Instant)
    requires AuthenticateManagementKey(config, generation, material, now).Ok?
    ensures material.Some?
    ensures var identity := AuthenticateManagementKey(config, generation, material, now).value;
            && identity.authenticatedBy == ManagementApiKey && identity.generation == generation
            && identity.sessionId == None && identity.externalIssuerId == None && identity.externalSubject == None
            && identity.authority.organizationCapabilities == map[]
            && if IsSeed(config, material.value) then
                 && identity.principal == SeedAdmin && identity.resourceScope == Deployment
                 && identity.acceptedKeyVersionId == Some(material.value.seedVersionId)
                 && (forall scope :: scope in identity.authority.scopes)
                 && (forall c :: c in identity.authority.capabilities)
                 && identity.authority.systemAdministrator && identity.authority.organizations == None
               else
                 && material.value.lookupText in generation.managementKeys
                 && var key := generation.managementKeys[material.value.lookupText];
                    && identity.acceptedKeyVersionId.Some?
                    && Presents(key, material.value.digest, identity.acceptedKeyVersionId.value, now)
                    && identity.resourceScope == key.resourceScope
                    && identity.principal == (match key.resourceScope
                         case Deployment => DeploymentManagementApiKey(key.keyId)
                         case Organization(id) => OrganizationManagementApiKey(id, key.keyId))
                    && identity.authority.scopes == key.scopes
                    && (forall c :: c in identity.authority.capabilities <==> Lists(key.capabilityCeiling, c))
                    && (identity.authority.systemAdministrator <==> IsAdministratorKey(generation, identity.principal))
                    && (forall id :: IsListed(identity.authority.organizations, id) <==>
                          key.resourceScope == Deployment || key.resourceScope == Organization(id))
  {
    if !IsSeed(config, material.value) {
      CeilingDecodesExactlyWhen(generation.managementKeys[material.value.lookupText].capabilityCeiling);
    } else {
      forall scope: ManagementScope ensures scope in ALL_SCOPES {
        EveryScopeIsListed(scope);
      }
      forall c: Capability ensures c in ALL {
        AllIsComplete(c);
      }
    }
  }

  // ---- External tokens -------------------------------------------------------------------------------------

  /** The claim spoils the token: it is read, and it is malformed, or it is missing where it is required. */
  predicate Spoils<T>(issuer: ExternalIssuer, mapped: bool, claim: Claim<T>) {
    && mapped && issuer.claimPolicy != Ignore
    && (claim.Malformed? || (claim.Absent? && issuer.claimPolicy == RequiredNarrowing))
  }

  /** The claim narrows the ceiling: it is read, and it lists something. */
  predicate Narrows<T>(issuer: ExternalIssuer, mapped: bool, claim: Claim<T>) {
    mapped && issuer.claimPolicy != Ignore && claim.Listed?
  }

  predicate ScopeRemains(issuer: ExternalIssuer, claims: Claims, scope: ManagementScope) {
    && scope in issuer.managementScopes
    && (Narrows(issuer, issuer.mapsScopes, claims.scopes) ==> scope in claims.scopes.values)
  }

  predicate CapabilityRemains(issuer: ExternalIssuer, claims: Claims, c: Capability) {
    && c in issuer.managementCapabilities
    && (Narrows(issuer, issuer.mapsCapabilities, claims.capabilities) ==> c in claims.capabilities.values)
  }

  predicate OrganizationRemains(issuer: ExternalIssuer, claims: Claims, id: OrganizationId) {
    && IssuerAllows(issuer, id)
    && (Narrows(issuer, issuer.mapsOrganizations, claims.organizations) ==> id in claims.organizations.values)
  }

  /** The issuer is known by name and id, is active, and binds the subject to a user. */
  predicate IsBound(generation: Generation, issuerName: string, subject: string) {
    && issuerName in generation.issuersByName && generation.issuersByName[issuerName].active
    && generation.issuersByName[issuerName].id in generation.issuersById
    && (generation.issuersByName[issuerName].id, subject) in generation.externalBindings
  }

  /** For every verified token: when it authenticates, and which error it meets otherwise. */
  lemma TokenIsAcceptedExactlyWhen(generation: Generation, issuerName: string, subject: string, claims: Claims)
    ensures var result := AuthenticateExternal(generation, issuerName, subject, claims);
            if !IsBound(generation, issuerName, subject) then result == Err(InvalidCredential)
            else
              var issuer := generation.issuersById[generation.issuersByName[issuerName].id];
              var userId := generation.externalBindings[(generation.issuersByName[issuerName].id, subject)];
              if userId !in generation.activeUsers || !generation.activeUsers[userId] then
                result == Err(CredentialInactive)
              else if || Spoils(issuer, issuer.mapsScopes, claims.scopes)
                      || Spoils(issuer, issuer.mapsCapabilities, claims.capabilities)
                      || Spoils(issuer, issuer.mapsOrganizations, claims.organizations)
              then result == Err(InvalidCredential)
              else if !issuer.managementAccess || forall scope :: !ScopeRemains(issuer, claims, scope) then
                result == Err(Forbidden)
              else result.Ok? && result.value.principal == LocalUser(userId)
  {
    if IsBound(generation, issuerName, subject) {
      var issuer := generation.issuersById[generation.issuersByName[issuerName].id];
      var scopes := Narrowed(issuer.claimPolicy, issuer.mapsScopes, issuer.managementScopes, claims.scopes);
      if scopes.Some? {
        assert forall scope :: scope in scopes.value <==> ScopeRemains(issuer, claims, scope);
      }
    }
  }

  /** What a verified token's identity holds. */
  lemma TokenIdentityHolds(generation: Generation, issuerName: string, subject: string, claims: Claims)
    requires AuthenticateExternal(generation, issuerName, subject, claims).Ok?
    ensures IsBound(generation, issuerName, subject)
    ensures var identity := AuthenticateExternal(generation, issuerName, subject, claims).value;
            var issuer := generation.issuersById[generation.issuersByName[issuerName].id];
            var userId := generation.externalBindings[(generation.issuersByName[issuerName].id, subject)];
            var powers := identity.authority;
            && identity.principal == LocalUser(userId) && identity.authenticatedBy == ExternalJwt
            && identity.resourceScope == Deployment && identity.generation == generation
            && identity.sessionId == None && identity.acceptedKeyVersionId == None
            && identity.externalIssuerId == Some(issuer.id) && identity.externalSubject == Some(subject)
            && (forall scope :: scope in powers.scopes <==> ScopeRemains(issuer, claims, scope))
            && (forall c :: c in powers.capabilities <==> CapabilityRemains(issuer, claims, c))
            && (powers.systemAdministrator <==>
                CapabilityRemains(issuer, claims, SystemAdministration) && IsAdministratorUser(generation, userId))
            && (forall id :: IsListed(powers.organizations, id) <==> OrganizationRemains(issuer, claims, id))
            && (forall id, c :: HoldsIn(powers.organizationCapabilities, id, c) <==>
                  && CapabilityRemains(issuer, claims, c) && OrganizationRemains(issuer, claims, id)
                  && IsMemberWith(generation, userId, id, c))
  {
    var identity := AuthenticateExternal(generation, issuerName, subject, claims).value;
    var powers := identity.authority;
    forall id: OrganizationId, c: Capability
      ensures HoldsIn(powers.organizationCapabilities, id, c) <==>
              c in powers.capabilities && IsListed(powers.organizations, id)
              && IsMemberWith(generation, identity.principal.userId, id, c)
    {
      MemberAuthorityHolds(generation, identity.principal.userId, powers.capabilities, powers.organizations, id, c);
    }
  }

  // ---- Order -----------------------------------------------------------------------------------------------

  /** Some of the elements, in the order of all of them. */
  ghost predicate IsPartOf(part: seq<OrganizationId>, whole: seq<OrganizationId>) {
    || part == []
    || (whole != [] && (|| (part[0] == whole[0] && IsPartOf(part[1..], whole[1..]))
                        || IsPartOf(part, whole[1..])))
  }

  lemma {:induction false} KeptArePart(organizations: seq<OrganizationId>, allowed: seq<OrganizationId>)
    ensures IsPartOf(Keep(organizations, allowed), organizations)
  {
    if organizations != [] {
      KeptArePart(organizations[1..], allowed);
    }
  }

  /** A token's organizations stay in the order of its issuer. */
  lemma TokenKeepsTheOrder(generation: Generation, issuerName: string, subject: string, claims: Claims)
    requires AuthenticateExternal(generation, issuerName, subject, claims).Ok?
    ensures IsBound(generation, issuerName, subject)
    ensures var ceiling := generation.issuersById[generation.issuersByName[issuerName].id].organizationCeiling;
            var identity := AuthenticateExternal(generation, issuerName, subject, claims).value;
            var organizations := identity.authority.organizations;
            ceiling.Organizations? ==> organizations.Some? && IsPartOf(organizations.value, ceiling.ids)
  {
    var ceiling := generation.issuersById[generation.issuersByName[issuerName].id].organizationCeiling;
    if ceiling.Organizations? {
      WholeIsPart(ceiling.ids);
      if claims.organizations.Listed? {
        KeptArePart(ceiling.ids, claims.organizations.values);
      }
    }
  }

  /** And a session's in the order in which they were captured. */
  lemma SessionKeepsTheOrder(config: Config, generation: Generation, id: SessionId, row: WebSession, now: Instant)
    requires AuthenticateSession(config, generation, id, row, now).Ok? && row.capturedOrganizations.Some?
    ensures var organizations := AuthenticateSession(config, generation, id, row, now).value.authority.organizations;
            organizations.Some? && IsPartOf(organizations.value, row.capturedOrganizations.value)
  {
    var captured := row.capturedOrganizations.value;
    WholeIsPart(captured);
    if row.principal.LocalUser? {
      var current := AsOptional(generation.issuersById[row.externalIssuerId.value].organizationCeiling);
      if current.Some? {
        KeptArePart(captured, current.value);
      }
    }
  }

  lemma {:induction false} WholeIsPart(organizations: seq<OrganizationId>)
    ensures IsPartOf(organizations, organizations)
  {
    if organizations != [] {
      WholeIsPart(organizations[1..]);
    }
  }

  // ---- Capture ---------------------------------------------------------------------------------------------

  /** The row bears the identity's evidence and powers, is active, and expires a lifetime from now. */
  predicate BearsTheIdentity(config: Config, identity: Identity, row: WebSession, now: Instant) {
    && row.principal == identity.principal && row.resourceScope == identity.resourceScope
    && row.acceptedKeyVersionId == identity.acceptedKeyVersionId
    && row.externalIssuerId == identity.externalIssuerId && row.externalSubject == identity.externalSubject
    && row.capturedScopes == identity.authority.scopes
    && row.capturedSystemAdministrator == identity.authority.systemAdministrator
    && row.capturedOrganizationCapabilities == identity.authority.organizationCapabilities
    && row.capturedOrganizations == identity.authority.organizations
    && row.active && row.revokedAt == None && row.expiresAt == now + config.sessionLifetime
  }

  /** A key session is created exactly from a directly authenticated seed or key, whose key is still filed. */
  lemma KeySessionIsCreatedExactlyWhen(config: Config, identity: Identity, now: Instant)
    ensures var row := KeySessionRow(config, identity, now);
            if identity.authenticatedBy != ManagementApiKey
               || (!identity.principal.SeedAdmin? && !IsKey(identity.principal))
            then row == Err(InvalidCredential)
            else if IsKey(identity.principal) && identity.principal.keyId !in identity.generation.managementKeysById
            then row == Err(CredentialInactive)
            else
              && row.Ok? && BearsTheIdentity(config, identity, row.value, now)
              && row.value.authenticatedBy == ManagementApiKeySession
              && row.value.capturedCeiling ==
                 if identity.principal.SeedAdmin? then List([Text("system_administration")])
                 else identity.generation.managementKeysById[identity.principal.keyId].capabilityCeiling
  {
  }

  /** An external session is created exactly from a user's token with its issuer and subject. */
  lemma ExternalSessionIsCreatedExactlyWhen(config: Config, identity: Identity, now: Instant)
    ensures var row := ExternalSessionRow(config, identity, now);
            if || identity.authenticatedBy != ExternalJwt || !identity.principal.LocalUser?
               || identity.externalIssuerId.None? || identity.externalSubject.None?
            then row == Err(InvalidCredential)
            else
              && row.Ok? && BearsTheIdentity(config, identity, row.value, now)
              && row.value.authenticatedBy == ExternalSession
              && IsReadable(row.value.capturedCeiling)
              && forall c :: Lists(row.value.capturedCeiling, c) <==>
                   c in identity.authority.capabilities || SystemAdministration in identity.authority.capabilities
  {
    CeilingDecodesExactlyWhen(EncodeCeiling(identity.authority.capabilities));
    StoredCeilingReadsBack(identity.authority.capabilities);
    forall c: Capability ensures c in ALL {
      AllIsComplete(c);
    }
  }
}
