/**
 * Management identities: how a credential becomes an identity, how a session stores it, how a later
 * request meets the stored authority with the current runtime generation, and what it may then do.
 */
module Sessions {
  import opened Wrappers
  import opened Authorization

  datatype UserId = UserId(uuid: nat)
  datatype KeyId = KeyId(uuid: nat)
  datatype IssuerId = IssuerId(uuid: nat)
  datatype SessionId = SessionId(uuid: nat)

  /** A point on the server's clock. */
  type Instant = int

  datatype Principal =
    | SeedAdmin
    | LocalUser(userId: UserId)
    | DeploymentManagementApiKey(keyId: KeyId)
    | OrganizationManagementApiKey(organizationId: OrganizationId, keyId: KeyId)
    | OrganizationGatewayApiKey(organizationId: OrganizationId, gatewayKeyId: nat)

  datatype AuthenticationMethod =
    ManagementApiKey | ManagementApiKeySession | ExternalSession | ExternalJwt | GatewayApiKey

  datatype ApplicationError = InvalidCredential | CredentialInactive | Forbidden | Internal

  /** What an identity may do, in the five components that a session captures. No organization list means all. */
  datatype Powers = Powers(
    scopes: set<ManagementScope>,
    capabilities: set<Capability>,
    systemAdministrator: bool,
    organizationCapabilities: map<OrganizationId, set<Capability>>,
    organizations: Option<seq<OrganizationId>>)

  datatype ManagementKeyVerifier = ManagementKeyVerifier(
    keyId: KeyId,
    resourceScope: ResourceScope,
    scopes: set<ManagementScope>,
    capabilityCeiling: Value,
    currentDigest: string,
    acceptedVersionId: string,
    overlapDigest: Option<string>,
    overlapVersionId: Option<string>,
    overlapUntil: Option<Instant>,
    expiresAt: Option<Instant>,
    active: bool)

  datatype OrganizationCeiling = NoOrganizations | AllAuthorized | Organizations(ids: seq<OrganizationId>)

  datatype ClaimPolicy = Ignore | OptionalNarrowing | RequiredNarrowing

  /** One claim of a token: missing, unreadable, or a list of known names. */
  datatype Claim<+T> = Absent | Malformed | Listed(values: T)

  datatype Claims = Claims(
    scopes: Claim<set<ManagementScope>>,
    capabilities: Claim<set<Capability>>,
    organizations: Claim<seq<OrganizationId>>)

  datatype ExternalIssuer = ExternalIssuer(
    id: IssuerId,
    active: bool,
    managementAccess: bool,
    managementScopes: set<ManagementScope>,
    managementCapabilities: set<Capability>,
    organizationCeiling: OrganizationCeiling,
    claimPolicy: ClaimPolicy,
    mapsScopes: bool,
    mapsCapabilities: bool,
    mapsOrganizations: bool)

  /** The identity part of one runtime generation. */
  datatype Generation = Generation(
    activeUsers: map<UserId, bool>,
    activeOrganizations: map<OrganizationId, bool>,
    memberships: map<(OrganizationId, UserId), OrganizationRole>,
    managementKeys: map<string, ManagementKeyVerifier>,
    managementKeysById: map<KeyId, ManagementKeyVerifier>,
    systemAdministratorUsers: map<UserId, bool>,
    systemAdministratorKeys: map<KeyId, bool>,
    issuersByName: map<string, ExternalIssuer>,
    issuersById: map<IssuerId, ExternalIssuer>,
    externalBindings: map<(IssuerId, string), UserId>)

  datatype Config = Config(seedAdminKeyVersionId: Option<string>, sessionLifetime: nat)

  datatype Identity = Identity(
    principal: Principal,
    authenticatedBy: AuthenticationMethod,
    authority: Powers,
    resourceScope: ResourceScope,
    sessionId: Option<SessionId>,
    acceptedKeyVersionId: Option<string>,
    externalIssuerId: Option<IssuerId>,
    externalSubject: Option<string>,
    generation: Generation)

  datatype WebSession = WebSession(
    principal: Principal,
    authenticatedBy: AuthenticationMethod,
    acceptedKeyVersionId: Option<string>,
    externalIssuerId: Option<IssuerId>,
    externalSubject: Option<string>,
    resourceScope: ResourceScope,
    capturedScopes: set<ManagementScope>,
    capturedCeiling: Value,
    capturedSystemAdministrator: bool,
    capturedOrganizationCapabilities: map<OrganizationId, set<Capability>>,
    capturedOrganizations: Option<seq<OrganizationId>>,
    active: bool,
    expiresAt: Instant,
    revokedAt: Option<Instant>)

  datatype Target =
    | CurrentPrincipal
    | System(capability: Capability)
    | OrganizationTarget(organizationId: OrganizationId, capability: Capability)
    | OperationsTarget(write: bool)

  /** A parsed raw key: the text it is looked up by, its digest and the version it would have as seed key. */
  datatype KeyMaterial = KeyMaterial(lookupText: string, digest: string, seedVersionId: string)

  predicate Flag<K>(flags: map<K, bool>, key: K) {
    key in flags && flags[key]
  }

  // ---- Direct authentication -------------------------------------------------------------------

  /** The key version a presented digest matches, current first, an overlapping one only until it lapses. */
  function MatchedVersion(verifier: ManagementKeyVerifier, digest: string, now: Instant): Option<string> {
    if digest == verifier.currentDigest then Some(verifier.acceptedVersionId)
    else if verifier.overlapDigest == Some(digest)
         && verifier.overlapUntil.Some? && verifier.overlapUntil.value > now
    then verifier.overlapVersionId
    else None
  }

  predicate Usable(verifier: ManagementKeyVerifier, now: Instant) {
    verifier.active && (verifier.expiresAt.Some? ==> verifier.expiresAt.value > now)
  }

  predicate ScopeActive(generation: Generation, scope: ResourceScope) {
    scope.Organization? ==> Flag(generation.activeOrganizations, scope.organizationId)
  }

  function KeyPrincipal(verifier: ManagementKeyVerifier): Principal {
    match verifier.resourceScope
    case Deployment => DeploymentManagementApiKey(verifier.keyId)
    case Organization(id) => OrganizationManagementApiKey(id, verifier.keyId)
  }

  function KeyOrganizations(scope: ResourceScope): Option<seq<OrganizationId>> {
    match scope
    case Deployment => None
    case Organization(id) => Some([id])
  }

  predicate KeyIsAdministrator(generation: Generation, principal: Principal) {
    principal.DeploymentManagementApiKey? && Flag(generation.systemAdministratorKeys, principal.keyId)
  }

  function SeedAuthority(): Powers {
    Powers(ALL_SCOPES, ALL, true, map[], None)
  }

  function AuthenticateManagementKey(
    config: Config, generation: Generation, material: Option<KeyMaterial>, now: Instant
  ): Result<Identity, ApplicationError>
  {
    if material.None? then Err(InvalidCredential)
    else if config.seedAdminKeyVersionId == Some(material.value.seedVersionId) then
      Ok(Identity(SeedAdmin, ManagementApiKey, SeedAuthority(), Deployment, None,
                  Some(material.value.seedVersionId), None, None, generation))
    else if material.value.lookupText !in generation.managementKeys then Err(InvalidCredential)
    else
      var verifier := generation.managementKeys[material.value.lookupText];
      var version := MatchedVersion(verifier, material.value.digest, now);
      if version.None? then Err(InvalidCredential)
      else if !Usable(verifier, now) || !ScopeActive(generation, verifier.resourceScope) then
        Err(CredentialInactive)
      else
        var ceiling := DecodeCeiling(verifier.capabilityCeiling);
        if ceiling.None? then Err(Internal)
        else
          var principal := KeyPrincipal(verifier);
          Ok(Identity(principal, ManagementApiKey,
                      Powers(verifier.scopes, ceiling.value, KeyIsAdministrator(generation, principal),
                                map[], KeyOrganizations(verifier.resourceScope)),
                      verifier.resourceScope, None, version, None, None, generation))
  }

  function Narrowed<T>(policy: ClaimPolicy, mapped: bool, ceiling: set<T>, claim: Claim<set<T>>): Option<set<T>> {
    if policy == Ignore || !mapped then Some(ceiling)
    else match claim
      case Malformed => None
      case Listed(values) => Some(ceiling * values)
      case Absent => if policy == RequiredNarrowing then None else Some(ceiling)
  }

  function Keep(organizations: seq<OrganizationId>, allowed: seq<OrganizationId>): (kept: seq<OrganizationId>)
    ensures forall id :: id in kept <==> id in organizations && id in allowed
  {
    if organizations == [] then []
    else
      var rest := Keep(organizations[1..], allowed);
      if organizations[0] in allowed then [organizations[0]] + rest else rest
  }

  /** The kept organizations stay in their order, each judged on its own. */
  lemma {:induction false} KeepKeepsOrder(
    first: seq<OrganizationId>, second: seq<OrganizationId>, allowed: seq<OrganizationId>)
    ensures Keep(first + second, allowed) == Keep(first, allowed) + Keep(second, allowed)
  {
    if first == [] {
      assert first + second == second;
    } else {
      assert (first + second)[1..] == first[1..] + second;
      KeepKeepsOrder(first[1..], second, allowed);
    }
  }

  function NarrowedOrganizations(
    policy: ClaimPolicy, mapped: bool, ceiling: OrganizationCeiling, claim: Claim<seq<OrganizationId>>
  ): Option<OrganizationCeiling>
  {
    if policy == Ignore || !mapped then Some(ceiling)
    else match claim
      case Malformed => None
      case Listed(values) => Some(match ceiling
          case AllAuthorized => Organizations(values)
          case Organizations(ids) => Organizations(Keep(ids, values))
          case NoOrganizations => NoOrganizations)
      case Absent => if policy == RequiredNarrowing then None else Some(ceiling)
  }

  function AsOptional(ceiling: OrganizationCeiling): Option<seq<OrganizationId>> {
    match ceiling
    case AllAuthorized => None
    case Organizations(ids) => Some(ids)
    case NoOrganizations => Some([])
  }

  predicate Within(organizations: Option<seq<OrganizationId>>, id: OrganizationId) {
    organizations.None? || id in organizations.value
  }

  function MemberCapabilities(
    generation: Generation, userId: UserId, id: OrganizationId, ceiling: set<Capability>,
    organizations: Option<seq<OrganizationId>>
  ): set<Capability>
  {
    if (id, userId) in generation.memberships
       && Flag(generation.activeOrganizations, id) && Within(organizations, id)
    then set c | c in ceiling && RoleAllows(generation.memberships[(id, userId)], c)
    else {}
  }

  predicate UserIsAdministrator(generation: Generation, userId: UserId, ceiling: set<Capability>) {
    SystemAdministration in ceiling && Flag(generation.systemAdministratorUsers, userId)
  }

  /** The organizations where a user holds something under a ceiling, without empty entries. */
  function MemberAuthority(
    generation: Generation, userId: UserId, ceiling: set<Capability>, organizations: Option<seq<OrganizationId>>
  ): map<OrganizationId, set<Capability>>
  {
    map membership | membership in generation.memberships && membership.1 == userId
        && MemberCapabilities(generation, userId, membership.0, ceiling, organizations) != {}
      :: membership.0 := MemberCapabilities(generation, userId, membership.0, ceiling, organizations)
  }

  /** A verified external token. The issuer name, subject and claims are what verification established. */
  function AuthenticateExternal(
    generation: Generation, issuerName: string, subject: string, claims: Claims
  ): Result<Identity, ApplicationError>
  {
    if issuerName !in generation.issuersByName || !generation.issuersByName[issuerName].active then
      Err(InvalidCredential)
    else
      var issuerId := generation.issuersByName[issuerName].id;
      if issuerId !in generation.issuersById || (issuerId, subject) !in generation.externalBindings then
        Err(InvalidCredential)
      else
        var issuer := generation.issuersById[issuerId];
        var userId := generation.externalBindings[(issuerId, subject)];
        if !Flag(generation.activeUsers, userId) then Err(CredentialInactive)
        else
          var scopes := Narrowed(issuer.claimPolicy, issuer.mapsScopes, issuer.managementScopes, claims.scopes);
          var capabilities := Narrowed(issuer.claimPolicy, issuer.mapsCapabilities,
                                       issuer.managementCapabilities, claims.capabilities);
          var organizations := NarrowedOrganizations(issuer.claimPolicy, issuer.mapsOrganizations,
                                                     issuer.organizationCeiling, claims.organizations);
          if scopes.None? || capabilities.None? || organizations.None? then Err(InvalidCredential)
          else if !issuer.managementAccess || scopes.value == {} then Err(Forbidden)
          else
            var ids := AsOptional(organizations.value);
            Ok(Identity(LocalUser(userId), ExternalJwt,
                        Powers(scopes.value, capabilities.value,
                                  UserIsAdministrator(generation, userId, capabilities.value),
                                  MemberAuthority(generation, userId, capabilities.value, ids), ids),
                        Deployment, None, None, Some(issuer.id), Some(subject), generation))
  }

  // ---- Capture -----------------------------------------------------------------------------------

  function CapturedRow(
    config: Config, direct: Identity, authenticatedBy: AuthenticationMethod, ceiling: Value, now: Instant
  ): WebSession
  {
    WebSession(direct.principal, authenticatedBy, direct.acceptedKeyVersionId, direct.externalIssuerId,
               direct.externalSubject, direct.resourceScope, direct.authority.scopes, ceiling,
               direct.authority.systemAdministrator, direct.authority.organizationCapabilities,
               direct.authority.organizations, true, now + config.sessionLifetime, None)
  }

  function KeySessionRow(config: Config, direct: Identity, now: Instant): Result<WebSession, ApplicationError> {
    if direct.authenticatedBy != ManagementApiKey then Err(InvalidCredential)
    else match direct.principal
      case SeedAdmin =>
        Ok(CapturedRow(config, direct, ManagementApiKeySession, List([Text("system_administration")]), now))
      case DeploymentManagementApiKey(_) | OrganizationManagementApiKey(_, _) =>
        var keyId := direct.principal.keyId;
        if keyId !in direct.generation.managementKeysById then Err(CredentialInactive)
        else Ok(CapturedRow(config, direct, ManagementApiKeySession,
                            direct.generation.managementKeysById[keyId].capabilityCeiling, now))
      case _ => Err(InvalidCredential)
  }

  function ExternalSessionRow(config: Config, direct: Identity, now: Instant): Result<WebSession, ApplicationError> {
    if direct.authenticatedBy != ExternalJwt || !direct.principal.LocalUser?
       || direct.externalIssuerId.None? || direct.externalSubject.None?
    then Err(InvalidCredential)
    else Ok(CapturedRow(config, direct, ExternalSession, EncodeCeiling(direct.authority.capabilities), now))
  }

  // ---- Every later request -----------------------------------------------------------------------

  predicate VersionAccepted(verifier: ManagementKeyVerifier, version: Option<string>, now: Instant) {
    || version == Some(verifier.acceptedVersionId)
    || (version == verifier.overlapVersionId
        && verifier.overlapUntil.Some? && verifier.overlapUntil.value > now)
  }

  function MeetOrganizations(captured: Option<seq<OrganizationId>>, current: Option<seq<OrganizationId>>)
    : Option<seq<OrganizationId>>
  {
    match (captured, current)
    case (None, None) => None
    case (Some(values), None) => Some(values)
    case (None, Some(values)) => Some(values)
    case (Some(left), Some(right)) => Some(Keep(left, right))
  }

  function MeetCapabilityMaps(
    captured: map<OrganizationId, set<Capability>>, current: map<OrganizationId, set<Capability>>
  ): map<OrganizationId, set<Capability>>
  {
    map id | id in captured && id in current && captured[id] * current[id] != {} :: captured[id] * current[id]
  }

  function ValidateSessionPrincipal(
    config: Config, generation: Generation, row: WebSession, capturedCapabilities: set<Capability>, now: Instant
  ): Result<Powers, ApplicationError>
  {
    match row.principal
    case SeedAdmin =>
      if config.seedAdminKeyVersionId != row.acceptedKeyVersionId then Err(CredentialInactive)
      else Ok(Powers(row.capturedScopes * ALL_SCOPES, capturedCapabilities, row.capturedSystemAdministrator,
                        row.capturedOrganizationCapabilities, row.capturedOrganizations))
    case DeploymentManagementApiKey(_) | OrganizationManagementApiKey(_, _) =>
      var keyId := row.principal.keyId;
      if keyId !in generation.managementKeysById then Err(CredentialInactive)
      else
        var verifier := generation.managementKeysById[keyId];
        if || !Usable(verifier, now)
           || verifier.resourceScope != row.resourceScope
           || !VersionAccepted(verifier, row.acceptedKeyVersionId, now)
           || !ScopeActive(generation, row.resourceScope)
        then Err(CredentialInactive)
        else
          var current := DecodeCeiling(verifier.capabilityCeiling);
          if current.None? then Err(Internal)
          else Ok(Powers(row.capturedScopes * verifier.scopes, capturedCapabilities * current.value,
                            row.capturedSystemAdministrator && KeyIsAdministrator(generation, row.principal),
                            map[], row.capturedOrganizations))
    case LocalUser(userId) =>
      if !Flag(generation.activeUsers, userId) || row.externalIssuerId.None? then Err(CredentialInactive)
      else
        var issuerId := row.externalIssuerId.value;
        if issuerId !in generation.issuersById || !generation.issuersById[issuerId].active
           || row.externalSubject.None?
        then Err(CredentialInactive)
        else
          var binding := (issuerId, row.externalSubject.value);
          if binding !in generation.externalBindings || generation.externalBindings[binding] != userId
          then Err(CredentialInactive)
          else
            var issuer := generation.issuersById[issuerId];
            var organizations := MeetOrganizations(row.capturedOrganizations, AsOptional(issuer.organizationCeiling));
            var capabilities := capturedCapabilities * issuer.managementCapabilities;
            Ok(Powers(row.capturedScopes * issuer.managementScopes, capabilities,
                         row.capturedSystemAdministrator && UserIsAdministrator(generation, userId, capabilities),
                         MeetCapabilityMaps(row.capturedOrganizationCapabilities,
                                            MemberAuthority(generation, userId, capabilities, organizations)),
                         organizations))
    case OrganizationGatewayApiKey(_, _) => Err(InvalidCredential)
  }

  function AuthenticateSession(
    config: Config, generation: Generation, id: SessionId, row: WebSession, now: Instant
  ): Result<Identity, ApplicationError>
  {
    if !row.active || row.expiresAt <= now then Err(CredentialInactive)
    else
      var captured := DecodeCeiling(row.capturedCeiling);
      if captured.None? then Err(Internal)
      else match ValidateSessionPrincipal(config, generation, row, captured.value, now)
        case Err(error) => Err(error)
        case Ok(authority) =>
          if row.authenticatedBy != ManagementApiKeySession && row.authenticatedBy != ExternalSession then Err(Internal)
          else Ok(Identity(row.principal, row.authenticatedBy, authority, row.resourceScope, Some(id),
                           row.acceptedKeyVersionId, row.externalIssuerId, row.externalSubject, generation))
  }

  // ---- Authorization -----------------------------------------------------------------------------

  predicate PrincipalCapabilityAllows(identity: Identity, capability: Capability) {
    && capability in identity.authority.capabilities
    && match identity.principal
       case SeedAdmin | LocalUser(_) => true
       case DeploymentManagementApiKey(_) | OrganizationManagementApiKey(_, _) =>
         var keys, keyId := identity.generation.managementKeysById, identity.principal.keyId;
         keyId in keys && ValueHasCapability(keys[keyId].capabilityCeiling, capability)
       case OrganizationGatewayApiKey(_, _) => false
  }

  predicate ScopeAllowsOrganization(identity: Identity, id: OrganizationId) {
    match identity.resourceScope
    case Deployment => Within(identity.authority.organizations, id)
    case Organization(bound) => bound == id
  }

  predicate OrganizationCapabilityAllows(identity: Identity, id: OrganizationId, capability: Capability) {
    if !Flag(identity.generation.activeOrganizations, id) then false
    else if identity.authority.systemAdministrator && ScopeAllowsOrganization(identity, id)
    then PrincipalCapabilityAllows(identity, capability)
    else match identity.principal
      case LocalUser(_) =>
        && ScopeAllowsOrganization(identity, id)
        && id in identity.authority.organizationCapabilities
        && capability in identity.authority.organizationCapabilities[id]
      case OrganizationManagementApiKey(bound, _) =>
        bound == id && PrincipalCapabilityAllows(identity, capability)
      case _ => false
  }

  predicate TargetAllowed(identity: Identity, target: Target) {
    match target
    case CurrentPrincipal => true
    case System(capability) =>
      identity.authority.systemAdministrator && PrincipalCapabilityAllows(identity, capability)
    case OrganizationTarget(id, capability) => OrganizationCapabilityAllows(identity, id, capability)
    case OperationsTarget(write) =>
      && Operations in identity.authority.scopes
      && (if write then Write else Read) in identity.authority.scopes
      && identity.authority.systemAdministrator
      && PrincipalCapabilityAllows(identity, if write then RecoverOperations else ReadOperations)
  }

  predicate Authorize(identity: Identity, required: set<ManagementScope>, target: Target) {
    required <= identity.authority.scopes && TargetAllowed(identity, target)
  }

  /** The stored session is accepted under the generation and the request is then allowed. */
  predicate Admits(
    config: Config, generation: Generation, id: SessionId, row: WebSession, now: Instant,
    required: set<ManagementScope>, target: Target)
  {
    var session := AuthenticateSession(config, generation, id, row, now);
    session.Ok? && Authorize(session.value, required, target)
  }
}
