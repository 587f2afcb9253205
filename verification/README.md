# OwlRora, verified in Dafny

OwlRora is a gateway with a management server, a command-line client and a web console. This project models the
parts of it whose correctness is a matter of protocol or of careful case analysis, and proves properties of them for
all inputs, all runs and all interleavings:

- **Sessions** (`Authorization`, `Sessions`, `SessionRules`, `SessionLaws`, `SessionGrowth`, `SessionStore`): a
  credential becomes an identity, a session row captures its powers, and every later request meets that row with the
  current runtime generation. Which credentials, rows and requests are accepted is stated on their fields. The five
  components of the powers form a lattice; the meet is its greatest lower bound, authorization is monotone in the
  generation, and a captured session reloads exactly.
- **The shared MAC root** (`Contexts`, `MacRoot`, `MacRootRules`): replicas that start, crash and restart at once
  agree on one write-once secret. The canonical context bytes that bind it are injective and prefix-free.
- **Span accounting** (`Telemetry`, `TelemetryLaws`): lock-free counters around a bounded queue, one action per atomic
  operation; what is counted where, why a single span is dropped or admitted, and in which order spans leave.
- **Drain and shutdown** (`Lifecycle`, `LifecycleRules`, `Serving`, `ServingRules`, `Shutdown`): the sticky drain
  flag, the controller registry behind its lock, the accept loop with its task set, and the response body that a drain
  may cut short; what every run keeps, and that shutting down can always complete.
- **The updater** (`SemVer`, `Releases`, `Checksums`, `ZipEnd`, `ZipRules`, `Replacement`): choosing a release,
  finding its digest, counting archive entries from the end record, and replacing the binary by renames that may fail.
- **The client** (`Client`, `ClientRules`, `OperationPaths`, `CommandTree`): the retry loop against a replaying
  server, path parameters, and the tree of subcommands against the linear lookup.
- **The console** (`Routes`, `RouteRules`, `RouteTargets`): building and matching paths, and the check of weighted
  targets.
- **Release preparation** (`PrepareRelease`, `PrepareRules`): a sequence of file rewrites whose interruption shows.

Concurrent code is a state machine: a total step function over all atomic actions, an inductive invariant, and theorems
about every sequence of actions. Objects that the source mutates are classes whose methods are proved against the same
functions that the lemmas are about. `Wrappers` and `Texts` hold shared data types and text functions.

## Where the code does less than one might expect

Each of these comes with the exact condition under which it happens and with a construction that shows it.

- An external session can exceed the token it was opened from: the stored name of system administration reads back as
  every capability of the issuer's ceiling. Session and token agree on every request exactly when the token is not
  effectively an administrator's or its claims left the whole ceiling (`SessionLaws.ExternalSessionAgreesExactlyWhen`,
  `SessionLaws.NarrowedTokenSessionWidens`).
- A call that stops the controllers can return while one of them is alive. From the moment it has taken the registry
  this can happen exactly when another stop then holds a live task that it did not take
  (`Lifecycle.StopReturnsTooEarlyExactlyWhen`, `Lifecycle.OverlappingStopReturnsEarly`).
- The accept loop does not look at the drain flag. A connection can be accepted during a drain exactly when the drain
  was begun while the loop still runs (`Serving.AcceptsWhileDrainingExactlyWhen`,
  `Serving.DrainElsewhereKeepsAccepting`).
- A failure reported for a command does not mean that it had no effect. The server's own refusal can be the last answer
  to a command that took effect exactly when the invocation passes its checks, may be retried, and its key is not
  completed yet; any failure can, exactly when the command can take effect at all
  (`Client.RefusalMayHideEffectExactlyWhen`, `Client.FailureMayHideEffectExactlyWhen`,
  `Client.RetriedCommandMayHideItsEffect`).
- A built path matches its own pattern exactly when no value holds a slash, and it reaches its own route exactly when no
  earlier route covers it, so a value equal to a literal such as `new` leads elsewhere
  (`Routes.BuiltPathMatchesExactlyWhen`, `Routes.BuiltPathReachesItsRouteExactlyWhen`, `Routes.SlashedValueIsLost`,
  `Routes.NewLeadsToTheForm`).
- A release preparation that fails leaves the working copy changed exactly when everything was development and the first
  place of the component was spelled as the replacement expects; every later run refuses that state
  (`PrepareRelease.FailedRewritingShows`, `PrepareRelease.ReleaseFailsHalfWritten`).

As the server is wired, two of these do not arise: only the accept loop begins the drain while it runs, and the
controllers are stopped once, after it has returned (crates/owlrora-server/src/composition.rs:264-276,
crates/owlrora-server/src/application/service.rs:227-229). `Shutdown.ShutdownIsClean` proves for every run of the server
wired like this that nothing is accepted during the drain and no controller is alive once the stop has returned.

## Model

| member | source | states |
|---|---|---|
| Authorization.CapabilitiesFromValue | crates/owlrora-server/src/application/authentication.rs:1136-1151 | the loop over a stored ceiling computes the union of what its items grant; one malformed item spoils it |
| Authorization.UnionMembership | crates/owlrora-server/src/application/authentication.rs:1136-1151 | a ceiling decodes exactly when every item does, and holds a capability exactly when some item grants it |
| Authorization.RawTestAgreesWithDecodedSet | crates/owlrora-server/src/application/authentication.rs:1127-1151 | testing the raw JSON ceiling and testing the decoded set agree for every well-formed ceiling and capability |
| Authorization.StoredCeilingReadsBack | crates/owlrora-server/src/application/authentication.rs:347-350 | writing a set and reading it gives the set back, or every capability if it holds system administration |
| Authorization.StoredCeilingMeets | crates/owlrora-server/src/application/authentication.rs:507-666 | what a stored set leaves of the ceiling it was narrowed from |
| Authorization.NamesAreDistinct | crates/owlrora-server/src/domain/authorization.rs:197-227 | no two capabilities share a name |
| Authorization.ParseIn | crates/owlrora-server/src/domain/authorization.rs:236-246 | parsing a name finds a capability of that name, or there is none |
| Sessions.Keep | crates/owlrora-server/src/application/authentication.rs:1033-1048 | meeting two organization lists keeps exactly the common ones |
| Sessions.KeepKeepsOrder | crates/owlrora-server/src/application/authentication.rs:1033-1048 | and keeps them in their order |
| SessionLaws.MeetOrganizationsAt | crates/owlrora-server/src/application/authentication.rs:1033-1048 | an organization is within the met ceiling exactly when it is within both; an absent list means all |
| SessionLaws.MeetMapsAt | crates/owlrora-server/src/application/authentication.rs:1088-1103 | in every organization the met map holds exactly the common capabilities |
| SessionLaws.MemberAuthorityAt | crates/owlrora-server/src/application/authentication.rs:1050-1086 | the computed map holds in every organization exactly what role, ceiling, activity and organization ceiling allow |
| SessionLaws.NeverExceedsCapture | crates/owlrora-server/src/application/authentication.rs:507-666 | no stored row, well formed or not, ever yields more than it captured, in any component |
| SessionLaws.ValidatedPowersAreTheMeet | crates/owlrora-server/src/application/authentication.rs:507-666 | the validated powers are the greatest lower bound of the captured and the current powers in all five components, without empty map entries |
| SessionLaws.CreatedKeyRowIsWellFormed | crates/owlrora-server/src/application/authentication.rs:165-254 | every directly authenticated key can open a session, and its row captures exactly the direct powers |
| SessionLaws.CreatedExternalRowIsWellFormed | crates/owlrora-server/src/application/authentication.rs:292-371 | every verified token can open a session, with a well-formed row |
| SessionLaws.KeySessionReloadsExactly | crates/owlrora-server/src/application/authentication.rs:46-290 | a seed or key session opened at once carries the direct powers and decides every scope and target alike; it opens exactly when the lifetime is positive, as the configuration demands (crates/owlrora-server/src/config.rs:299-304) |
| SessionLaws.ExternalReload | crates/owlrora-server/src/application/authentication.rs:292-505 | an external session keeps every component of the token's powers except the capability ceiling, which may widen to the issuer's |
| SessionLaws.ExternalSessionAgreesExactlyWhen | crates/owlrora-server/src/application/authentication.rs:292-505 | session and token agree on all requests if and only if the token is no effective administrator or kept the whole issuer ceiling |
| SessionLaws.NarrowedToken | crates/owlrora-server/src/application/external_identity.rs:1496-1590 | a concrete issuer and token whose claims narrow it to administration alone |
| SessionLaws.NarrowedTokenSessionWidens | crates/owlrora-server/src/application/authentication.rs:347-350 | its session may do what the token may not |
| SessionRules.TokenKeepsTheOrder | crates/owlrora-server/src/application/external_identity.rs:1496-1590 | the organizations of a token stay in the order of its issuer |
| SessionRules.SessionKeepsTheOrder | crates/owlrora-server/src/application/authentication.rs:1033-1048 | those of a session stay in the order in which they were captured |
| SessionRules.NamesParse | crates/owlrora-server/src/domain/authorization.rs:197-246 | every capability is found by its name |
| SessionRules.CeilingDecodesExactlyWhen | crates/owlrora-server/src/application/authentication.rs:1127-1151 | a stored ceiling decodes if and only if it lists names of capabilities, and then to exactly what it lists, administration standing for all; the raw test finds exactly the same |
| SessionRules.RolesAllowExactly | crates/owlrora-server/src/application/authentication.rs:1153-1183 | every member reads, administrators and owners manage, only owners manage owners, no role is deployment-wide |
| SessionRules.SessionIsAcceptedExactlyWhen | crates/owlrora-server/src/application/authentication.rs:404-666 | for every row, generation and time: on the fields of row, key, user, issuer and binding, when a stored session is accepted and which error it meets otherwise |
| SessionRules.AcceptedSessionSpeaksForItsRow | crates/owlrora-server/src/application/authentication.rs:404-505 | an accepted session bears the principal and the evidence of its row |
| SessionRules.MemberAuthorityHolds | crates/owlrora-server/src/application/authentication.rs:1050-1086 | a user holds a capability in an organization exactly as an active member there whose role, ceiling and organization list allow it |
| SessionRules.SeedSessionHolds | crates/owlrora-server/src/application/authentication.rs:507-530 | an accepted seed session holds exactly what its row captured |
| SessionRules.KeySessionHolds | crates/owlrora-server/src/application/authentication.rs:531-605 | an accepted key session holds in every component what its row captured and the filed key holds now |
| SessionRules.UserSessionHolds | crates/owlrora-server/src/application/authentication.rs:606-663 | an accepted user session holds in every component and organization what its row, its issuer and the memberships now allow together |
| SessionRules.AuthorizedExactlyWhen | crates/owlrora-server/src/application/authentication.rs:683-808 | for every identity, scopes and target: what is demanded and what suffices |
| SessionRules.NothingBeyondTheCeilings | crates/owlrora-server/src/application/authentication.rs:683-808 | no stored session is admitted to a target whose capability its row, or its key now, does not list: recovering operations to write them, reading them to read |
| SessionRules.OnlyAdministratorsLeaveTheirOrganizations | crates/owlrora-server/src/application/authentication.rs:683-740 | system and operations targets admit only rows that captured administration, and only while the principal still has it |
| SessionRules.OrganizationsAreEnteredOnlyWithin | crates/owlrora-server/src/application/authentication.rs:742-808 | an inactive organization is closed to every session, and none enters an organization it was not given |
| SessionRules.KeySessionAdmitsExactlyWhen | crates/owlrora-server/src/application/authentication.rs:404-808 | which requests an accepted key session is admitted to, exactly, on its row and the filed key |
| SessionRules.UserSessionAdmitsExactlyWhen | crates/owlrora-server/src/application/authentication.rs:404-808 | which requests an accepted user session is admitted to, exactly, on its row, its issuer and the memberships |
| SessionRules.DeadKeyAdmitsNothing | crates/owlrora-server/src/application/authentication.rs:531-605 | a key that was disabled, has expired or was rotated past a session ends it: no row of it is admitted anything |
| SessionRules.DeadUserAdmitsNothing | crates/owlrora-server/src/application/authentication.rs:606-663 | so does an inactive or unbound user, and an inactive issuer |
| SessionRules.KeyIsAcceptedExactlyWhen | crates/owlrora-server/src/application/authentication.rs:46-163 | for every raw key: when it authenticates, and which error it meets otherwise |
| SessionRules.KeyIdentityHolds | crates/owlrora-server/src/application/authentication.rs:46-163 | what an authenticated key is and holds, on the fields of the filed key |
| SessionRules.TokenIsAcceptedExactlyWhen | crates/owlrora-server/src/application/external_identity.rs:1496-1590 | for every verified token: when it authenticates, and which error it meets otherwise |
| SessionRules.TokenIdentityHolds | crates/owlrora-server/src/application/external_identity.rs:1496-1590 | what its identity holds: what the issuer gives and the claims that are read leave, and in organizations what the memberships allow |
| SessionRules.KeySessionIsCreatedExactlyWhen | crates/owlrora-server/src/application/authentication.rs:165-254 | a key session is created exactly from a direct seed or key identity whose key is filed, and bears its evidence and powers |
| SessionRules.ExternalSessionIsCreatedExactlyWhen | crates/owlrora-server/src/application/authentication.rs:292-371 | an external session exactly from a user token with issuer and subject |
| SessionGrowth.StrongerRoleAllowsMore | crates/owlrora-server/src/application/authentication.rs:1153-1183 | a stronger role allows everything a weaker one does |
| SessionGrowth.ValidatedPowersGrow | crates/owlrora-server/src/application/authentication.rs:507-666 | under a larger generation a valid row stays valid and its powers only grow |
| SessionGrowth.MapStaysInsideCeiling | crates/owlrora-server/src/application/authentication.rs:606-663 | what a user holds in any organization stays inside the credential's ceiling |
| SessionGrowth.KeyTestGrows | crates/owlrora-server/src/application/authentication.rs:742-771 | the raw ceiling test of a key is monotone in the key's ceiling |
| SessionGrowth.TargetStaysAllowed | crates/owlrora-server/src/application/authentication.rs:683-808 | an allowed target stays allowed for a stronger identity, also across the switch to the administrator's branch |
| SessionGrowth.AdmissionIsMonotone | crates/owlrora-server/src/application/authentication.rs:404-808 | enlarging grants, roles, ceilings or active organizations never turns an allowed request of a stored session into a denied one |
| SessionStore.SessionTable.CreateKeySession | crates/owlrora-server/src/application/authentication.rs:165-290 | inserts the captured row under a new id, or changes nothing and says why |
| SessionStore.SessionTable.CreateExternalSession | crates/owlrora-server/src/application/authentication.rs:292-402 | the same for an external session |
| SessionStore.SessionTable.Logout | crates/owlrora-server/src/application/authentication.rs:953-989 | revokes exactly the caller's active session, or reports why not and changes nothing |
| SessionStore.SessionTable.CleanUp | crates/owlrora-server/src/application/operations.rs:1257-1276 | deletes of the selected rows exactly those a week past their expiry or revocation, counts them, and changes no other |
| SessionStore.RowsAreRevokedOnceAndCleanedUpLate | crates/owlrora-server/src/application/operations.rs:1257-1276 | over all later changes a row is unchanged, revoked once and for all, or gone, and gone only through a cleanup more than a week after it expired or was revoked |
| SessionStore.CleanupTakesNothingAdmissible | crates/owlrora-server/src/application/operations.rs:1257-1276 | no cleanup takes a row that could still admit a request, then or later |
| SessionStore.LaterTablesAdmitNoMore | crates/owlrora-server/src/application/authentication.rs:404-505 | a later table admits no request for a row that the row did not admit when it was stored |
| SessionStore.LoadManagementKeys | crates/owlrora-server/src/runtime/publisher.rs:672-826 | every key a lookup finds is filed under its id as the same verifier, and every stored key's lookups find that very key, lookups being unique |
| SessionStore.OnlyStoredKeysAreFiled | crates/owlrora-server/src/runtime/publisher.rs:814-825 | the filed keys are those stored, under their own id and lookups |
| SessionStore.EffectiveKeyStaysInsidePolicy | crates/owlrora-server/src/runtime/publisher.rs:712-792 | narrowing by the key policy never lets a key exceed it, and keeps all that both share exactly under a condition on the two sets |
| SessionStore.EffectiveKeyHolds | crates/owlrora-server/src/runtime/publisher.rs:752-798 | on the four sets of the policy, what a key of a generation holds and when it is active; one that a member issued never more than the members' sets name |
| SessionStore.LoadIssuers | crates/owlrora-server/src/runtime/publisher.rs:510-652 | every issuer found by name is filed under its id as the same snapshot, and every stored issuer is found by its id and, names being unique, by its name |
| SessionStore.LoadedGenerationIsConsistent | crates/owlrora-server/src/runtime/publisher.rs:510-826 | a generation filled by both loaders is consistent, as exact reloading relies on |
| Contexts.NewIdentifier | crates/owlrora-key-provider/src/context.rs:16-31 | an identifier is accepted exactly when it is not empty, within its length and made of allowed bytes, and which error is reported otherwise |
| Contexts.NumberReadsBack | crates/owlrora-key-provider/src/context.rs:118-145 | a number that fits its width is recovered from its big-endian bytes |
| Contexts.BytesWriteBack | crates/owlrora-key-provider/src/context.rs:118-145 | every byte string of a width is the encoding of the number it reads as |
| Contexts.PushText | crates/owlrora-key-provider/src/context.rs:141-145 | appends a text behind its sixteen-bit length |
| Contexts.EncodeBuffer | crates/owlrora-key-provider/src/context.rs:118-139 | filling one buffer field by field gives the canonical bytes; every length fits its prefix |
| Contexts.DecodeRecoversEveryField | crates/owlrora-key-provider/src/context.rs:118-145 | an independent decoder recovers every field of a valid context and exactly what follows it |
| Contexts.EncodingIsInjectiveAndPrefixFree | crates/owlrora-key-provider/src/context.rs:118-145 | if the bytes of one valid context begin those of another, the contexts are equal |
| Contexts.ContextsAreIdentifiedByTheirBytes | crates/owlrora-key-provider/src/context.rs:98-116 | a context is rejected exactly for a zero generation or version, and accepted ones are equal if and only if the bytes of one begin the other's |
| Contexts.OnlyCanonicalBytesDecode | crates/owlrora-key-provider/src/context.rs:118-145 | the only bytes that decode to a context are its own encoding |
| Contexts.AllowedBytesExactlyWhen | crates/owlrora-key-provider/src/context.rs:24-29 | which bytes an identifier and which the name of a provider may hold, as ASCII codes |
| Contexts.EveryContextBeginsWithItsHeader | crates/owlrora-key-provider/src/context.rs:118-122 | the bytes begin with the tag, a zero byte and the version one |
| Contexts.PartsAreValidExactlyWhenCreated | crates/owlrora-key-provider/src/context.rs:41-46 | parts are valid if and only if every identifier's constructor accepts it and every number survives its width |
| MacRoot.SealedRowHolds | crates/owlrora-server/src/composition.rs:372-398 | a sealed row opens, under the context its own stored pair rebuilds, to the generated root |
| MacRoot.OpenedRowHolds | crates/owlrora-server/src/composition.rs:419-448 | a successfully opened row holds exactly the returned root |
| MacRoot.StepKeepsAgreement | crates/owlrora-server/src/composition.rs:351-473 | every atomic step of every replica keeps the invariant, the stored row and the roots served so far |
| MacRoot.RunKeepsAgreement | crates/owlrora-server/src/composition.rs:351-473 | so does every interleaving |
| MacRoot.ReplicasAgreeOnOneRoot | crates/owlrora-server/src/composition.rs:351-473 | in every interleaving of starts, crashes and restarts at most one row is inserted, and all roots ever served are the plaintext of that row |
| MacRoot.TwoReplicasServeOneRoot | crates/owlrora-server/src/composition.rs:351-473 | a deployment that meets the assumptions, and a race in which both replicas serve the winner's root |
| MacRoot.SupportedRowOpens | crates/owlrora-server/src/composition.rs:290-316 | a row that passes the custody check of a replica that supports its pair opens there |
| MacRoot.UndisturbedRestartFindsTheRoot | crates/owlrora-server/src/composition.rs:351-371 | after any history a supporting replica left alone starts with the agreed root |
| MacRoot.UndisturbedFirstStartInserts | crates/owlrora-server/src/composition.rs:372-417 | after any history that left the table empty a replica left alone inserts its own root and starts with it, if and only if it supports its write pair and the version fits the column |
| MacRoot.SecretTable.InsertIfAbsent | crates/owlrora-server/src/composition.rs:381-398 | inserts only into an empty table and reports whether it did |
| MacRoot.SecretTable.LoadOrInitialize | crates/owlrora-server/src/composition.rs:351-417 | one replica's procedure, with a rival before its insertion: an existing row is opened, the first insertion wins, the loser opens the winner's row |
| MacRootRules.RootContextNamesTheRoot | crates/owlrora-server/src/composition.rs:450-473 | what an independent decoder reads from the context of the root |
| MacRootRules.RowOpensExactlyWhen | crates/owlrora-server/src/composition.rs:419-448 | for every row and replica: when the row opens, to which root, and which error it meets otherwise |
| MacRootRules.RowIsCheckedExactlyWhen | crates/owlrora-server/src/composition.rs:299-313 | for every row and replica: whether the custody check lets the replica go on, and why not |
| MacRootRules.RowIsSealedExactlyWhen | crates/owlrora-server/src/composition.rs:370-397 | when a replica can seal a root into a row, and which error it meets otherwise |
| MacRootRules.RootContextBindsInstallationAndPair | crates/owlrora-server/src/composition.rs:450-473 | no two installations or pairs share the context of the root, nor does one begin another |
| MacRootRules.ServedExactlyWhen | crates/owlrora-server/src/composition.rs:351-448 | in every run a root is served exactly by a replica whose own insertion was acknowledged or that opened the stored row |
| MacRootRules.StoredExactlyWhen | crates/owlrora-server/src/composition.rs:381-398 | in every run the table holds exactly the row of the first insertion that found it empty, acknowledged or not |
| MacRootRules.OthersStandStill | crates/owlrora-server/src/composition.rs:351-417 | a replica moves only by its own steps, and one that has started stays so until it is restarted |
| Telemetry.ExportState.TryAdmit | crates/owlrora-server/src/telemetry.rs:72-91 | one atomic admission below the capacity |
| Telemetry.ExportState.RecordDrop | crates/owlrora-server/src/telemetry.rs:84-88 | counts one dropped span |
| Telemetry.ExportState.RecordBatch | crates/owlrora-server/src/telemetry.rs:110-119 | counts a batch as exported or failed |
| Telemetry.ExportState.Release | crates/owlrora-server/src/telemetry.rs:120-123 | subtracts a batch on the machine word |
| Telemetry.ExportState.Close | crates/owlrora-server/src/telemetry.rs:95-98 | marks the state closed |
| Telemetry.StepKeepsInv | crates/owlrora-server/src/telemetry.rs:64-130 | every atomic operation of every thread, the exporter and shutdown keeps balance, location and conservation |
| Telemetry.RunKeepsInv | crates/owlrora-server/src/telemetry.rs:64-130 | so does every interleaving |
| Telemetry.FinishConserves | crates/owlrora-server/src/telemetry.rs:499-513 | only the first end of a span counts, and it adds exactly that span to what is accounted for |
| Telemetry.MovedSpanConserves | crates/owlrora-server/src/telemetry.rs:72-91 | a span that leaves its thread is found in the pipe instead |
| Telemetry.HandOverConserves | crates/owlrora-server/src/telemetry.rs:72-91 | dropping or queueing moves one span from its thread to the pipe |
| Telemetry.OutstandingIsExact | crates/owlrora-server/src/telemetry.rs:64-123 | at every step outstanding spans are exactly those admitted, queued, in flight, stranded or unsettled, at most 512; the inner queue never overflows and the subtraction never wraps |
| Telemetry.EverySpanIsInOnePlace | crates/owlrora-server/src/telemetry.rs:64-123 | at every step every ended sampled span is in exactly one place, and no other span is anywhere |
| Telemetry.CountersConserveSpans | crates/owlrora-server/src/telemetry.rs:64-123 | at every step the four counters and the undecided threads account for all ended sampled spans, up to one batch |
| Telemetry.CountersAreExactAtRest | crates/owlrora-server/src/telemetry.rs:64-123 | at rest ended sampled spans equal dropped plus failed plus exported plus outstanding |
| TelemetryLaws.DisconnectedExactlyWhen | crates/owlrora-server/src/telemetry.rs:95-98 | the worker is gone exactly when it hung up while it rested, after the close |
| TelemetryLaws.NothingIsExportedAfterHangup | crates/owlrora-server/src/telemetry.rs:90-98 | from then on nothing is exported or fails; what was queued and what still comes is stranded |
| TelemetryLaws.ClosedExactlyWhen | crates/owlrora-server/src/telemetry.rs:95-98 | the processor is closed if and only if a shutdown closed it |
| TelemetryLaws.DroppedExactlyWhenRefused | crates/owlrora-server/src/telemetry.rs:72-89 | in every run a span is dropped if and only if its thread read the flag as set or met the counter at 512 |
| TelemetryLaws.OpenProcessorDropsNothing | crates/owlrora-server/src/telemetry.rs:72-91 | while nobody closes the processor and fewer than 512 spans are outstanding nothing is dropped |
| TelemetryLaws.AdmittedExactlyWhenLetIn | crates/owlrora-server/src/telemetry.rs:72-91 | in every run a span is handed on if and only if its thread met the counter below 512 |
| TelemetryLaws.ClosedProcessorAdmitsNothing | crates/owlrora-server/src/telemetry.rs:72-98 | a span whose flag is not read before the close is never admitted, whatever follows |
| TelemetryLaws.SpansLeaveInOrder | crates/owlrora-server/src/telemetry.rs:90-123 | in every run spans are exported or fail, fly, wait and strand in the order in which they were handed on |
| TelemetryLaws.DeliveryDecides | crates/owlrora-server/src/telemetry.rs:110-119 | spans fail only by a failed export and are exported only by a delivered one |
| TelemetryLaws.ThreadCanAlwaysFinish | crates/owlrora-server/src/telemetry.rs:72-91 | from every state the thread of an ended span can finish by itself in at most four steps |
| TelemetryLaws.QueueCanAlwaysDrain | crates/owlrora-server/src/telemetry.rs:110-123 | from every state the exporter can empty the queue and rest, whatever is delivered |
| Lifecycle.Registry.BeginDrain | crates/owlrora-server/src/lifecycle.rs:31-39 | sets the drain start once |
| Lifecycle.Registry.SpawnController | crates/owlrora-server/src/lifecycle.rs:55-62 | refuses while draining; else prunes finished handles, keeps every live one in order and adds the new one |
| Lifecycle.Registry.TakeControllers | crates/owlrora-server/src/lifecycle.rs:64-65 | takes all handles and leaves none |
| Lifecycle.Pruned | crates/owlrora-server/src/lifecycle.rs:60-60 | pruning keeps exactly the live handles |
| Lifecycle.StepKeepsInv | crates/owlrora-server/src/lifecycle.rs:27-72 | every step keeps every live task in the registry or in a waiting stop call |
| Lifecycle.RunKeepsInv | crates/owlrora-server/src/lifecycle.rs:27-72 | so does every interleaving |
| Lifecycle.FenceIsForGood | crates/owlrora-server/src/lifecycle.rs:55-72 | once a stop that started after the drain took the registry, nothing is ever spawned again |
| Lifecycle.StopLeavesOnlyWhatOthersHold | crates/owlrora-server/src/lifecycle.rs:64-72 | when such a stop returns, whatever is alive then or later is held by another waiting stop, and nothing is spawned again |
| Lifecycle.StopReturnsTooEarlyExactlyWhen | crates/owlrora-server/src/lifecycle.rs:64-72 | once such a stop has taken the registry, it can return while a controller is alive if and only if another stop then holds a live task that it did not take |
| Lifecycle.SoleStopLeavesNothingAlive | crates/owlrora-server/src/lifecycle.rs:64-72 | without an overlapping stop no controller is alive, then or ever later |
| Lifecycle.OneStopAfterTheDrainSuffices | crates/owlrora-server/src/application/service.rs:227-229 | when controllers are stopped once, after the drain has begun, none is alive after that, ever |
| Lifecycle.OverlappingStopReturnsEarly | crates/owlrora-server/src/lifecycle.rs:64-72 | a concrete run in which the second of two stops returns while a controller lives |
| Lifecycle.DrainIsSticky | crates/owlrora-server/src/lifecycle.rs:31-39 | the drain start never changes once set |
| LifecycleRules.PrunedKeepsOrder | crates/owlrora-server/src/lifecycle.rs:60-60 | pruning judges every handle on its own and keeps their order |
| LifecycleRules.DrainBeginsWithTheFirstCall | crates/owlrora-server/src/lifecycle.rs:31-39 | in every interleaving the drain bears the time of the first call that begins it |
| LifecycleRules.SpawnedExactlyWhen | crates/owlrora-server/src/lifecycle.rs:55-62 | in every interleaving a task is spawned exactly by a call that was let through |
| LifecycleRules.SpawnedOnlyBehindAClearFlag | crates/owlrora-server/src/lifecycle.rs:55-62 | behind every spawned task is one call that found the drain flag clear under the lock and pushed the task later |
| LifecycleRules.UndisturbedSpawnSucceedsExactlyWhen | crates/owlrora-server/src/lifecycle.rs:55-62 | a spawn left to itself succeeds if and only if the drain has not begun, and gives the lock back |
| LifecycleRules.LockCanAlwaysBeReleased | crates/owlrora-server/src/lifecycle.rs:55-62 | whoever holds the lock can always give it back |
| LifecycleRules.StopCanAlwaysReturn | crates/owlrora-server/src/lifecycle.rs:64-72 | from every state of every run some way on leads to the return of a stop |
| Serving.ServeStepKeepsOwned | crates/owlrora-server/src/lifecycle.rs:151-226 | every step of the server keeps its ownership of all accepted connections |
| Serving.ServerOwnsEveryConnection | crates/owlrora-server/src/lifecycle.rs:151-226 | in every run accepted connections equal joined plus owned; none is left on return; none is aborted before the longer grace has passed |
| Serving.ServerCanAlwaysReturn | crates/owlrora-server/src/lifecycle.rs:206-220 | from every state of every run some way on leads to the return |
| Serving.NothingAcceptedAfterOwnDrain | crates/owlrora-server/src/lifecycle.rs:206-210 | after the loop itself begins the drain nothing is accepted |
| Serving.AcceptsWhileDrainingExactlyWhen | crates/owlrora-server/src/lifecycle.rs:170-210 | a connection can be accepted during a drain if and only if the drain has begun while the loop runs |
| Serving.DrainElsewhereKeepsAccepting | crates/owlrora-server/src/lifecycle.rs:170-210 | a concrete run that accepts after a drain begun elsewhere |
| Serving.ServeDrainIsSticky | crates/owlrora-server/src/lifecycle.rs:31-39 | the drain start never changes during a run of the server |
| Serving.WrapBody | crates/owlrora-server/src/lifecycle.rs:117-129 | a wrapped body yields its frames, or a prefix of them and one error, the error never before drain start plus grace and no frame before it is ready; a consumer that polls by then gets the error exactly then, before anything not yet ready |
| ServingRules.AcceptedExactlyWhen | crates/owlrora-server/src/lifecycle.rs:167-205 | in every run a connection is owned, or owned since the drain began, exactly when it arrived at a listening loop then |
| ServingRules.TransientFailureDelaysNothing | crates/owlrora-server/src/lifecycle.rs:175-175 | after a transient accept failure the loop listens at once |
| ServingRules.NothingHappensWhileBackingOff | crates/owlrora-server/src/lifecycle.rs:177-180 | whatever happens, the sleeping loop neither accepts nor joins before its time, unless it is left |
| ServingRules.FailureBacksOffForOneSecond | crates/owlrora-server/src/lifecycle.rs:174-180 | after any other failure nothing is accepted for one second, and then the loop listens again |
| ServingRules.LoopIsLeftByTheFirstSignal | crates/owlrora-server/src/lifecycle.rs:167-208 | in every run the loop is left by the first shutdown signal and nothing else, and the drain begins at that moment unless begun elsewhere |
| ServingRules.AbortsExactlyAtTheDeadline | crates/owlrora-server/src/lifecycle.rs:211-220 | connections are aborted from the longer grace after that signal on, and not before |
| ServingRules.JoinedExactlyWhen | crates/owlrora-server/src/lifecycle.rs:170-219 | ended connections are joined one by one, by any loop that does not sleep, and nothing else is |
| Shutdown.EveryRunStaysClean | crates/owlrora-server/src/composition.rs:264-276 | every event of the wired server keeps the shared drain flag, the loop and the registry in step |
| Shutdown.ShutdownIsClean | crates/owlrora-server/src/composition.rs:264-276 | in every run with the one drain flag nothing is accepted during the drain, the controllers are stopped only after the loop returned, and none is alive from that stop's return on |
| Shutdown.ShutdownCanAlwaysComplete | crates/owlrora-server/src/composition.rs:264-276 | after every run of the wired server some way on leads to the loop's return, every connection joined, and to a returned stop with no controller alive |
| SemVer.LexicographicIsOrdered | crates/owlrora-cli/src/update.rs:166-173 | comparing lists left to right is a total order if comparing elements is |
| SemVer.PrecedenceIsATotalOrder | crates/owlrora-cli/src/update.rs:166-173 | version precedence is a total order, also through pre-releases |
| SemVer.LexicographicDecides | crates/owlrora-cli/src/update.rs:166-173 | comparing lists left to right finds the first difference, or that one begins the other |
| SemVer.CompareDecides | crates/owlrora-cli/src/update.rs:166-173 | in numbers and characters, which of two versions is lower: by major, minor, patch, then a pre-release below none, then the first differing identifier (section 11 of Semantic Versioning 2.0.0) |
| Releases.StableTagsAreCanonical | crates/owlrora-cli/src/update.rs:276-282 | a text is an accepted stable version if and only if it is exactly how that version prints |
| Releases.EqualVersionsHaveEqualTags | crates/owlrora-cli/src/update.rs:276-292 | two candidates of one version have one tag |
| Releases.SelectionIsGreatest | crates/owlrora-cli/src/update.rs:269-292 | the selection is a candidate strictly greater than every other; there is none only without candidates |
| Releases.SelectionIgnoresOrder | crates/owlrora-cli/src/update.rs:269-292 | neither order nor repetition of releases changes the selection |
| Releases.CandidateExactlyWhen | crates/owlrora-cli/src/update.rs:272-284 | a release is a candidate of a version if and only if it is published and its tag is the prefix and the version as it prints |
| Releases.HighestStableReleaseIsSelected | crates/owlrora-cli/src/update.rs:269-292 | the selection is a stable release with the highest major, minor and patch numbers; there is none only without any |
| Releases.LatestStableRelease | crates/owlrora-cli/src/update.rs:252-267 | fetches pages 1, 2, and so on, at most ten, up to the first short one, and selects over all of them, or reports the first error, the limit or no release |
| Releases.UnforcedUpdatesNeverGoBack | crates/owlrora-cli/src/update.rs:158-174 | over any sequence of selections unforced updates never lower the installed version, and it ends at least as high as each |
| Releases.UpdateIsRequiredExactlyWhen | crates/owlrora-cli/src/update.rs:158-174 | forced always; otherwise a lower version is refused, the same kept and a higher one installed, in numbers |
| Releases.UnforcedUpdatesReachTheHighest | crates/owlrora-cli/src/update.rs:158-174 | over any sequence of selections the installed version ends as the highest of all it was and was offered |
| Checksums.ExpectedChecksum | crates/owlrora-cli/src/update.rs:458-493 | yields a digest if and only if every line is in order and exactly one lists the archive; else the first fault, or that none does |
| Checksums.WrittenManifestReadsBack | crates/owlrora-cli/src/update.rs:458-493 | a manifest written one entry a line reads back as exactly its entries |
| Checksums.WrittenManifestYieldsEveryDigest | crates/owlrora-cli/src/update.rs:458-493 | and yields the digest of every archive it lists and of no other |
| Checksums.ErrorsAreTrueOfTheManifest | crates/owlrora-cli/src/update.rs:462-492 | every error is true: the numbered line is at fault, two lines list the archive, or none does |
| Checksums.LinesExactly | crates/owlrora-cli/src/update.rs:462-462 | the lines are the pieces between line feeds, each but the last without one carriage return at its end |
| Checksums.LineReadsExactlyWhen | crates/owlrora-cli/src/update.rs:462-482 | for every line: when it is blank, when it lists which digest under which name, with or without an asterisk, and when it is at fault |
| Checksums.FoundDigestIsListed | crates/owlrora-cli/src/update.rs:483-492 | a digest that is found is, digit for digit and in small letters, the one some line lists for the archive |
| Checksums.CarriageReturnsDoNotMatter | crates/owlrora-cli/src/update.rs:462-462 | a manifest whose lines end in carriage returns as well reads alike |
| ZipEnd.ZipEntryCount | crates/owlrora-cli/src/update.rs:555-637 | the bounded backward scan never reads out of range and judges the consistent end record at the greatest offset of the whole archive |
| ZipEnd.WrittenEndIsLastExactlyWhen | crates/owlrora-cli/src/update.rs:568-575 | the scan judges a written end record if and only if that record and its comment hold no later consistent one; without a comment always |
| ZipEnd.CommentDecidesWhichEndIsLast | crates/owlrora-cli/src/update.rs:568-575 | that is, if and only if none begins in the comment, nor by accident in the ten bytes of sizes and offsets before it |
| ZipEnd.AssembledArchiveCountsOne | crates/owlrora-cli/src/update.rs:555-637 | then the archive counts as one entry |
| ZipEnd.WindowLosesNothing | crates/owlrora-cli/src/update.rs:555-575 | no consistent end record lies before the scanned window |
| ZipEnd.OneEntryMeansOneRecord | crates/owlrora-cli/src/update.rs:577-632 | the verdict is one entry if and only if a single-disk record of one entry follows a directory in which an independent reading finds exactly one record |
| ZipEnd.AssembledArchiveHasOneEntry | crates/owlrora-cli/src/update.rs:555-637 | data, one central record and an end record are judged as one entry at that end record |
| ZipRules.JudgedExactlyWhen | crates/owlrora-cli/src/update.rs:577-632 | for every end record: which verdict it gets, on its fields and those of its directory |
| ZipRules.WrittenRecordIsOne | crates/owlrora-cli/src/update.rs:616-631 | a central record written field by field reads as exactly one record, whatever it holds |
| ZipRules.WrittenArchiveCountsOne | crates/owlrora-cli/src/update.rs:555-637 | an archive of data, one such record and an end record without a comment counts as one entry |
| Replacement.FileSystem.Rename | crates/owlrora-cli/src/update.rs:795-796 | a rename moves one file or changes nothing |
| Replacement.ReplaceOtherDestination | crates/owlrora-cli/src/update.rs:799-845 | whichever renames fail, at every moment the old binary, its backup or the new one is in place; the result says which |
| Client.SuccessIsNeverADefiniteFailure | crates/owlrora-cli/src/client.rs:413-555 | a response of success to a command reads as success or as an unknown outcome |
| Client.FirstMissing | crates/owlrora-cli/src/client.rs:229-263 | reports the first path parameter without an argument, exactly when there is one |
| Client.ReplayingServer.Handle | crates/owlrora-cli/src/client.rs:165-227 | the assumed server: a completed key gets its stored response and no second execution |
| Client.Attempt | crates/owlrora-cli/src/client.rs:179-217 | one attempt changes the server and answers as specified for its exchange |
| Client.AttemptLaws | crates/owlrora-cli/src/client.rs:179-217 | an attempt takes effect if and only if it finds the server willing and its key not completed; what its answer then means |
| Client.InvokedLaws | crates/owlrora-cli/src/client.rs:165-227 | what requests, effect and result of a whole invocation have to do with each other, for every behaviour of the network |
| Client.Send | crates/owlrora-cli/src/client.rs:178-227 | the retry loop follows the specified attempts |
| Client.Invoke | crates/owlrora-cli/src/client.rs:165-227 | without the etag it needs, a path argument or a known method nothing is sent and the first lack is reported, and otherwise something is; at most two identical requests, one without an eligible key; at most one effect, and exactly when some attempt finds the server willing and the key not completed; success means an effect; one-time material is never missing; a definite failure is reported if and only if a failure arrived as the last answer |
| Client.RefusalMayHideEffectExactlyWhen | crates/owlrora-cli/src/client.rs:165-227 | the server's refusal can be the last answer to a command that took effect if and only if it passes the checks, may be retried and its key is not completed |
| Client.FailureMayHideEffectExactlyWhen | crates/owlrora-cli/src/client.rs:165-227 | some failure can be, if and only if it passes the checks and its key is not completed |
| Client.RetriedCommandMayHideItsEffect | crates/owlrora-cli/src/client.rs:209-227 | a run of the client in which a command takes effect in a lost first attempt and is refused in the second |
| ClientRules.ResponseReadsExactlyWhen | crates/owlrora-cli/src/client.rs:413-555 | for every response: when it reads as a success and as what, when as the server's failure, when as an unknown outcome |
| ClientRules.AnswerReadsExactlyWhen | crates/owlrora-cli/src/client.rs:205-218 | for every exchange: when the answer is a success and with which body, and when it is worth another attempt |
| ClientRules.AttemptsAreMadeExactlyWhen | crates/owlrora-cli/src/client.rs:165-227 | how many attempts an invocation makes: none if it may not be sent, two exactly if it has an eligible key and the first exchange invites another |
| ClientRules.SuccessReturnsTheOneExecution | crates/owlrora-cli/src/client.rs:165-227 | a success returns the body of the one execution, be it by this attempt, the one before or another invocation under the same key |
| OperationPaths.ExtractPathParameters | crates/owlrora-cli/src/contract.rs:73-85 | the shrinking loop collects the braced names from the left |
| OperationPaths.ExtractedParametersAreNeeded | crates/owlrora-cli/src/client.rs:229-263 | the extracted names are those the URL needs, in order |
| OperationPaths.UrlIsBuiltExactlyWhenParametersAreGiven | crates/owlrora-cli/src/client.rs:229-263 | the URL can be built if and only if every extracted parameter has an argument |
| OperationPaths.BuiltUrlFillsTheTemplate | crates/owlrora-cli/src/client.rs:245-262 | the URL is the template's non-empty segments in order, each name in braces replaced by its argument; or the first name without one is reported |
| Texts.JoinedWordsSplit | crates/owlrora-cli/src/main.rs:115-131 | words joined by single spaces split into the same words |
| CommandTree.InsertChangesOnePath | crates/owlrora-cli/src/main.rs:115-127 | an insertion changes the operation at one path and at no other |
| CommandTree.InsertReaches | crates/owlrora-cli/src/main.rs:115-127 | it makes reachable exactly the paths on the way |
| CommandTree.Tree.Enter | crates/owlrora-cli/src/main.rs:124-124 | the child of a node, created if it is missing; all other nodes stay where they are |
| CommandTree.Tree.Add | crates/owlrora-cli/src/main.rs:115-127 | walking the mutable tree adds the missing nodes and leaves the operation at the last one only |
| CommandTree.Tree.Walk | crates/owlrora-cli/src/main.rs:239-321 | following words from the root finds the operation recorded at that path, or nothing |
| CommandTree.BuildTree | crates/owlrora-cli/src/main.rs:115-131 | the tree of nodes represents the tree specified for the operation list |
| CommandTree.Lookup | crates/owlrora-cli/src/contract.rs:104-108 | finds the first operation of exactly this path, or there is none |
| CommandTree.TreeHoldsTheLastMatch | crates/owlrora-cli/src/main.rs:115-131 | the tree holds at a path the last operation that has it, or nothing if none has, for any list |
| CommandTree.TreeRefinesLookup | crates/owlrora-cli/src/contract.rs:104-108 | walking the tree and the linear lookup find the same, for distinct single-spaced paths |
| CommandTree.InsertionOrderIsIrrelevant | crates/owlrora-cli/src/main.rs:115-131 | the order of the operations does not matter |
| CommandTree.SelectedCommand | crates/owlrora-cli/src/main.rs:528-536 | the loop joins the chosen names |
| CommandTree.CompleteSelectionIsFound | crates/owlrora-cli/src/main.rs:456-459 | the lookup of a complete selection cannot fail and finds the operation it ended at |
| CommandTree.ParserAcceptsExactlyCompleteSelections | crates/owlrora-cli/src/main.rs:239-321 | requiring a subcommand wherever a node holds no operation, the parser accepts exactly the selections that end at an operation |
| CommandTree.AcceptedSelectionIsFound | crates/owlrora-cli/src/main.rs:456-459 | the lookup of an accepted selection cannot fail |
| CommandTree.EveryNodeLeadsToAnOperation | crates/owlrora-cli/src/main.rs:312-319 | every node lies on the path of some operation |
| Routes.Utf8ReadsBack | apps/web/src/routes.ts:730-737 | every character is recovered from its UTF-8 octets |
| Routes.Utf8WritesBack | apps/web/src/routes.ts:730-737 | only the shortest encoding of a character is accepted |
| Routes.EncodedTextDecodes | apps/web/src/routes.ts:730-737 | percent coding is inverted for every text (section 2.1 of RFC 3986) |
| RouteRules.DecodesExactlyWhenSpelled | apps/web/src/routes.ts:730-737 | a text decodes to a value if and only if it spells it, each character plain or by the escapes of its octets in either case; all others are rejected |
| RouteRules.SegmentDecodesExactlyWhen | apps/web/src/routes.ts:730-737 | a segment stands for what it spells unless that is empty or holds a slash |
| RouteRules.CharacterIsEncoded | apps/web/src/routes.ts:777-777 | letters, digits and nine marks stand for themselves, every other character becomes capital escapes of its octets |
| RouteRules.EncodingGoesCharacterByCharacter | apps/web/src/routes.ts:777-777 | a text is encoded character by character |
| Routes.MatchPattern | apps/web/src/routes.ts:739-759 | the index loop captures what the segments of the pattern capture from the decoded segments, or nothing |
| Routes.CapturesExactlyWhen | apps/web/src/routes.ts:746-758 | a pattern captures if and only if every segment decodes and is a parameter or the same literal |
| RouteRules.CapturedNames | apps/web/src/routes.ts:745-758 | a match captures the names of its pattern and nothing else |
| RouteRules.CapturedValue | apps/web/src/routes.ts:745-758 | each name bears the value of the last place that has it |
| Routes.MatchRoute | apps/web/src/routes.ts:761-769 | the loop over the table returns the first match |
| Routes.FirstMatchIsEarliest | apps/web/src/routes.ts:761-769 | the match is the earliest route whose pattern accepts the path; none exactly when none accepts |
| Routes.BuildFailsAtTheFirstMissing | apps/web/src/routes.ts:771-779 | building succeeds if and only if every parameter has a non-empty value, and names the first missing one |
| RouteRules.EmptyBracesStay | apps/web/src/routes.ts:772-772 | empty braces name nothing and stay |
| RouteRules.UnclosedBracesStay | apps/web/src/routes.ts:772-772 | a pattern without a closing brace stays as it is |
| Routes.BuiltPathSegments | apps/web/src/routes.ts:739-779 | the segments of a built path decode to the literals and raw values of its pattern |
| Routes.BuiltPathMatchesExactlyWhen | apps/web/src/routes.ts:739-779 | matching a built path returns exactly the values it was built from, unless one holds a slash, when it does not match |
| Routes.SlashedValueIsLost | apps/web/src/routes.ts:739-779 | a concrete pattern and value with a slash whose built path does not match |
| Routes.BuiltPathIsTakenExactlyWhenCovered | apps/web/src/routes.ts:761-779 | another pattern takes a built path if and only if it has a parameter or the same text in every place |
| Routes.BuiltPathReachesItsRouteExactlyWhen | apps/web/src/routes.ts:761-779 | a path built from slash-free values reaches its own route with exactly those values if no earlier route covers it, and otherwise the earliest that does |
| Routes.LiteralNeighbourTakesItsWord | apps/web/src/routes.ts:761-779 | a value equal to a neighbour's literal leads to the neighbour |
| Routes.WordIsTakenByItsRoute | apps/web/src/routes.ts:761-779 | of two routes that differ in a word and a parameter the word's takes the path built for that value |
| Routes.NewLeadsToTheForm | apps/web/src/routes.ts:761-779 | a concrete table and the value `new` |
| Routes.TrailingSlashesAreIgnored | apps/web/src/routes.ts:739-742 | trailing slashes do not change the match, except at the root |
| PrepareRelease.WorkingCopy.ReplaceOnce | scripts/release/prepare_release.py:80-85 | rewrites one place from the development version or changes nothing |
| PrepareRelease.WorkingCopy.ObservedVersions | scripts/release/prepare_release.py:54-68 | reads the versions of a component in order, or names the first unreadable place |
| PrepareRelease.WorkingCopy.ValidateComponentState | scripts/release/prepare_release.py:71-77 | accepts exactly a uniform component |
| PrepareRelease.WorkingCopy.Materialize | scripts/release/prepare_release.py:88-109 | writes the places in order up to the first it does not recognise; every state on the way has a number of them written |
| PrepareRelease.WorkingCopy.Examine | scripts/release/prepare_release.py:119-134 | tells a prepared copy from an all-development one, and refuses any other |
| PrepareRelease.WorkingCopy.Prepare | scripts/release/prepare_release.py:119-138 | the new working copy and the result are those specified; nothing is written except from an all-development state |
| PrepareRelease.RewritingIsUniform | scripts/release/prepare_release.py:136-138 | the checks after the rewriting never fail |
| PrepareRelease.AbandonedPreparationIsRefused | scripts/release/prepare_release.py:119-134 | a copy abandoned between the first and the last write is refused unchanged by every later valid request |
| PrepareRelease.FinishedPreparationIsRecognised | scripts/release/prepare_release.py:119-134 | after the last write the same request succeeds without change and any other is refused |
| PrepareRelease.CrashShowsExactlyWhenPartial | scripts/release/prepare_release.py:119-138 | a repeated request is refused if and only if some but not all of its writes had happened |
| PrepareRelease.SuccessExactlyWhen | scripts/release/prepare_release.py:119-138 | when preparing succeeds, exactly; the component then is uniformly the version, the other all development, and a repetition changes nothing |
| PrepareRelease.FailedRewritingShows | scripts/release/prepare_release.py:88-109 | a failing run leaves the copy changed if and only if everything was development and its first place was spelled as expected; every later run refuses what it left |
| PrepareRelease.ReleaseFailsHalfWritten | scripts/release/prepare_release.py:88-109 | a concrete copy at which every release of the client fails half-written |
| PrepareRules.SemanticVersionExactlyWhen | scripts/release/prepare_release.py:22-27 | the accepted versions are exactly three printed numbers and, after a hyphen, dotted fields as section 9 of Semantic Versioning 2.0.0 words them |
| PrepareRules.InvalidRequestsEndAtOnce | scripts/release/prepare_release.py:112-116 | a request names one of two components and a version other than that of development; any other ends at once without a change |
| PrepareRules.PlacesOfAComponent | scripts/release/prepare_release.py:54-68 | every place belongs to one component, once, and manifests come before lock file entries |
| PrepareRules.ValidRunEndsExactlyAs | scripts/release/prepare_release.py:119-138 | for every working copy: how a run ends, with which error and place, and what it leaves |
| RouteTargets.ValidateRouteTargets | apps/web/src/catalog-editor.tsx:241-267 | the one-pass check accepts if and only if targets are complete, in range, distinct and every tier weighs at most 256; an error names the first fault |
| RouteTargets.AcceptableStepByStep | apps/web/src/catalog-editor.tsx:245-266 | one more target keeps a list acceptable if and only if it has no fault after the others |
| RouteTargets.RejectedForGood | apps/web/src/catalog-editor.tsx:263-265 | stopping at the first overflowing prefix is equivalent to checking the final sums |
| RouteTargets.AcceptanceIgnoresOrder | apps/web/src/catalog-editor.tsx:241-267 | rearranging the targets never changes the verdict |
| RouteTargets.InRangeExactlyWhen | apps/web/src/catalog-editor.tsx:252-262 | in integers, which priorities and weights are in range |

## Left out

- Session tokens, cross-site request tokens, digests and cookies: opaque; a parsed raw key is its lookup text, digest and version.
- SQL, audit records and the loss of a database connection while a session is written; scopes and principals are assumed to be stored without loss.
- Gateway keys appear only as the principal that management sessions reject; routing, budgets and catalog rules are not modelled.
- SessionStore.LoadManagementKeys: reading policies and rows, and rejecting malformed ones, happens before; a key arrives with its parsed sets.
- SessionStore.LoadIssuers: the checks of an issuer's access settings while it is read are left out.
- SessionLaws.ExternalSessionAgreesExactlyWhen: token verification itself (signatures, keys, times) is an input; issuer, subject and claims are what it established.
- MacRoot.ReplicasAgreeOnOneRoot: assumes that opening inverts sealing a root under equal context bytes; sealing and opening are function values.
- MacRoot.RunKeepsAgreement: nothing else writes the root's row; the statements that delete other secrets by their ids are left out.
- MacRoot.SupportedRowOpens: the custody check covers the root's row only, not the other secrets in the table or inline login state.
- Telemetry.CountersConserveSpans: the three total counters are unbounded here, sixty-four bits in the source; the outstanding counter and its subtraction do wrap at the machine word.
- Telemetry.OutstandingIsExact: the library's batch worker is a bounded queue that takes batches, waits for the exporter and may disconnect after shutdown; flushing, metric export and timeouts are left out.
- Lifecycle.StopReturnsTooEarlyExactlyWhen: a stop call that is itself cancelled, and a poisoned lock, are left out.
- Serving.ServerOwnsEveryConnection: the trackers of upgraded connections and response pumps, the per-connection deadline and the bounded join of other tasks are left out, and so is refusing requests while draining.
- Serving.WrapBody: a body is a finite list of frames.
- Releases.StableTagsAreCanonical: texts with pre-release or build parts are only rejected here; precedence is defined on parsed identifiers.
- Releases.LatestStableRelease: downloading, redirects and reading the release list are the page function's.
- Checksums.ExpectedChecksum: the payload is already decoded text; an undecodable one is an error before this point.
- ZipEnd.ZipEntryCount: decompressing, tar archives and the comparison of the entry's name are left out; offsets are unbounded, as on sixty-four-bit machines.
- Replacement.ReplaceOtherDestination: the variant with a backup, as built for Windows; elsewhere it is a single rename. Replacing the running executable is left to a library there.
- SessionStore.LaterTablesAdmitNoMore: session ids are fresh, so none is ever inserted again.
- SessionStore.SessionTable.CleanUp: which stale rows one pass selects, at most five hundred, is its argument; a migration that once deleted all external sessions is left out.
- Client.ReplayingServer.Handle: completed keys are kept; the server deletes them once they have expired.
- Client.Invoke: the server handles one request at a time, so the two attempts never overlap there; URL text, headers and reading request bodies are left out.
- OperationPaths.ExtractedParametersAreNeeded: for templates whose braces enclose whole segments, as all operation paths do.
- CommandTree.TreeRefinesLookup: argument parsing is the nested selection it produces; a contract path that begins with a built-in command's name is left out.
- Routes.EncodedTextDecodes: texts are sequences of Unicode scalar values; encoding a lone surrogate is an error in the console and has no counterpart here. A parameter map is a plain map, without inherited property names.
- PrepareRelease.WorkingCopy.ReplaceOnce: a file is a set of places each holding a version and whether it is spelled as the pattern expects; one write is atomic, and the first pattern match is the intended place.
- RouteTargets.ValidateRouteTargets: reading a field as a text or a number happens before; a field that is neither is absent.
- Configuration ranges, output formats, tool descriptions, profile files, pages and forms: plumbing that would only add easy members.
