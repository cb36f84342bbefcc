# Verified model of the tenant authorization store

A multi-tenant Django backend keeps roles, role permissions, memberships, feature flags, tenants and
domains. Three of these tables (roles, memberships, flags) carry signals that send a field-level
before/after delta for every saved or deleted row to a log worker; an audit service writes a second,
separate log of role events. Around the store stand the HTTP gates and the client-side guard, a timed
host-to-tenant cache, an idempotent task runner, a data migration and a demo seeder. This project models
all of these in Dafny and proves what holds over every call, every run and every interleaving.

## How the model is built

- `Rows`, `Text`, `Slugs`: options, querysets over tables held as row sequences, texts of values, and
  tenant slugs.
- `DeltaLog`, `AuthModel`: deltas with forward and backward replay; the rows, their text snapshots and
  the two ways of reading a log, *as written* and *canonically* (an erased user reads as null, a Boolean
  in its stored spelling).
- `Services`, `Seeding`: each call as a function of the store (`Db`) before it. `AuthStore` is the store
  as an object with the signals and services as step-by-step methods, each proved to do what the function
  of the same call says to every table, to the delta queue and to the events.
- `StoreInvariant`, `AuditReplay`, `Runs`: the store invariant `Inv`, the statement `LogOk` that the
  queued deltas rebuild the audited tables with each delta starting from what its predecessors built, and
  both over arbitrary runs of calls.
- `Queries`, `ServiceEffects`, `TwoLogs`, `SeedIdempotence`, `SeedFrame`: what the calls promise their callers,
  stated in terms of rows, and when the two logs agree.
- `AuditTrail`, `AuditTable`: deltas and events as rows with the audit table's own columns, and the machine in
  which calls, the log worker and other writers interleave on that table.
- `InsideCalls`: the stores between the single saves of one call, and backward replay to them.
- `FailingRuns`: one short run from the empty store for each promise that the code can break.
- `Gates`, `Isolation`, `Views`, `ViewEffects`: server gates, client guard, the four mutating views as functions
  of the store and as methods on the store object, tenant isolation, and what each request is answered and does.
- `TenantCache`, `Idempotency`, `RoleMigration`: the timed cache under interleaving, the idempotent runner, and
  the data migration. Their classes are the imperative form of the code.

`now` is a parameter of every call that stamps rows. Identifiers are fresh numbers from a counter: primary
keys and UUIDs do not collide and are not reused; 1 and 2 stand for the two fixed demo tenant identifiers.
`ShowNat` is the text of an identifier, a weight or a time; only its injectivity is used.

## Facts assumed about the platform

- A queryset delete or a cascade sends `post_delete` for each row when a listener is connected; the signals
  of one batch come in the order of the primary keys, for which table order stands; the log is right in any order
  (`AuditReplay.DroppedInAnyOrder`). Nulling a reference (`SET_NULL`) and many-to-many writes send none, and the
  permissions of a role are not among its model fields.
- The database is PostgreSQL: a text longer than its column, a number out of the column's range and a text with
  a zero character are refused, the last already as a query parameter (`Text.Storable`, `Text.Clean`). Which texts
  the address type reads is a parameter (`AuditTrail.AddressParser`), so statements hold for every reading; an
  empty address is stored as a null.
- An atomic block that raises gives back every table; a message already handed to the queue stays sent. The
  queue hands every message to the worker once, in order; a task that raises without a retry policy is not tried
  again.
- A violated unique constraint raises; a nullable column does not take part in uniqueness.
- A Boolean column accepts true, false, the numbers equal to 1 and 0 whole or fractional, and the texts "t",
  "True", "1", "f", "False", "0" on save; a null violates the column; saving does not change the value held by
  the instance in memory.
- The audit service's writes of role events succeed; a row whose columns are refused is not written, and the
  code swallows the failure (`AuditTable.AuditLog.Log`).
- The cache keeps an entry until it expires, and drops it then.

## What the code does that its documentation does not say

Each of these is a proved statement, with the exact condition under which the code meets the promise; `FailingRuns`
and `AuditTable.BadAddressLosesChange` show that the failing cases occur.

- A call keeps the log able to rebuild the tables exactly when it does not give up an atomic block that has
  already sent deltas (`Runs.StepExact`, `Runs.RunExact`). Three calls can: `create_tenant` with a
  free host of more than 253 characters, whose column refuses it after the roles of the new tenant were sent
  (`Runs.CreateTenantStep`); `anonymize` when its placeholder name is taken and the user has a membership; and
  `seed` when it has inserted a demo tenant and then fails on a slug or host that somebody else holds
  (`SeedIdempotence.SeedLeaksExactly`). The store itself is kept
  by every call, leaking ones included (`Runs.InvStep`, `Runs.RunInv`).
- Read as written, the log is wrong exactly when a flag was set with a value spelled unlike the stored one
  (the toggle view passes raw JSON, so `1` is logged as "1" and `1.0` as "1.0" where "True" is stored), or when
  a hard-deleted user had assigned somebody else's role (`Runs.SetFeatureStep`, `Runs.HardDeleteStep`).
- `create_role` is all or nothing except exactly when a role that can be inserted is asked for with a code that
  holds a zero character: the role is committed before the lookup raises, and stays without permissions
  (`ServiceEffects.CreateRoleAllOrNothing`).
- The worker loses a change whose message carries an address that is none, which a request may put in its
  forwarding header; the audit table holds every change taken so far exactly when no message taken was refused
  (`AuditTable.TableHolds`).
- Erasure deletes memberships without a `role_revoked` event. The event log and the membership table disagree
  about a seat exactly when the last call that touched it was such an erasure (`TwoLogs.RunAgreesExactly`).
- The merged feature list lets the last row of a name win and the point query takes the first. They agree about
  a name exactly when the first and the last row that decide it hold the same value (`Queries.MergedListExact`);
  the services keep (tenant, name) unique, but the database does not enforce it for global rows.
- A duplicate within the time to live is answered from the cache when the result was not `None`; a result of
  `None` is run again (`Idempotency.DuplicatesAreCached`, `Idempotency.DuplicateExactly`,
  `Idempotency.NoneIsRunAgain`).
- Invalidating a host works, in every continuation, exactly when no lookup already past its database read holds
  an answer that the database no longer gives (`TenantCache.InvalidationExact`); otherwise the staleness bound
  is reached, to the second (`TenantCache.StaleAfterInvalidation`).
- The header of `apps/tenants/middleware.py` says that an unknown host gets 404; the code lets the view run
  without a tenant. The model follows the code (`TenantCache.TenantMiddleware.Call`).
- The client guard hides from a superuser what the fetched list does not name, although the server allows it
  (`Gates.GuardRefinesGate`); a failed fetch keeps the context of the previous tenant
  (`Gates.AuthProvider.LoadContext`).
- A change to a global flag is filed under the tenant of the request that made it
  (`AuditTrail.FiledUnderOwnTenant`).

## Model

| member | source | states |
|---|---|---|
| `DeltaLog.DiffPatch` | apps/audit/signals.py:27-51 | the recorded field diff and its application are mutual inverses on all non-password fields, and the diff is empty exactly when the row did not change |
| `DeltaLog.RewindReplay` | apps/audit/signals.py:22-123 | undoing a log newest first inverts replaying it, for every log in which each delta starts from what the earlier ones built |
| `DeltaLog.RewindSuffix` | apps/audit/signals.py:22-123 | undoing the last k deltas gives the tables as they stood before those k |
| `AuthModel.TextDeterminesRow` | apps/audit/signals.py:29-33 | the logged text of a row determines the row, so a rebuilt text table is a rebuilt table |
| `AuthStore.Store.AuditPreSave` | apps/audit/signals.py:8-19 | captures exactly the stored row's texts, and nothing for a row that is not there |
| `AuthStore.Store.ChangedFields` | apps/audit/signals.py:35-51 | the loop over the fields yields exactly the changed non-password fields, old and new |
| `AuthStore.Store.AuditPostSave` | apps/audit/signals.py:22-81 | appends one creation or one diff to the queue, and nothing when no field changed |
| `AuthStore.Store.AuditPostDelete` | apps/audit/signals.py:84-123 | appends one deletion holding the row as it was |
| `AuthStore.Store.CreateDefaultRoles` | services/rbac/rbac_service.py:29-49 | the loop adds the missing default roles with their deltas and returns the three roles in order |
| `AuthStore.Store.CreateRole` | services/rbac/rbac_service.py:51-90 | the new state of every table and of the queue on success, on a taken slug, on values the columns refuse, on a code the lookup refuses, and on an unknown code after the role was created and deleted again |
| `AuthStore.Store.CreatePermission` | services/rbac/rbac_service.py:96-101 | inserts a permission or refuses a taken code without effect |
| `AuthStore.Store.GetOrCreatePermission` | services/rbac/rbac_service.py:103-109 | inserts a permission only when its code is new |
| `AuthStore.Store.AssignRole` | services/rbac/rbac_service.py:115-159 | seats or re-seats the user, with one delta if anything changed and one event; an unknown slug changes nothing |
| `AuthStore.Store.RevokeRole` | services/rbac/rbac_service.py:161-181 | removes the seat with its delta and event, and reports whether there was one |
| `AuthStore.Store.SetFeature` | services/features/feature_service.py:49-57 | upserts the flag row and logs the value as it was passed; a wrong value, a null and a name the column refuses change nothing |
| `AuthStore.Store.CreateTenant` | services/tenants/tenant_service.py:39-89 | the new state on success and on each of its failures, with the default roles that the tenant's own signal creates, and their deltas left sent when the host is refused after them |
| `AuthStore.Store.Anonymize` | services/users/gdpr_service.py:56-103 | deletes tokens, notifications and memberships and overwrites the user, or rolls the tables back and leaves the deltas sent |
| `AuthStore.Store.HardDelete` | services/users/gdpr_service.py:105-136 | removes the user and all children and nulls references without a delta |
| `AuthStore.Store.Seed` | services/demo/seed_service.py:32-48 | the seeder inside its atomic block, with its mark cleared on every exit |
| `StoreInvariant.CreateRoleKeeps` | services/rbac/rbac_service.py:66-90 | role creation keeps the store invariant on success and on every failure, loses no role, and a failure other than a refused code gives back the roles |
| `StoreInvariant.AssignRoleKeeps` | services/rbac/rbac_service.py:131-145 | an assignment keeps one membership per user and tenant, with a role of that tenant |
| `StoreInvariant.CreateTenantKeeps` | services/tenants/tenant_service.py:66-87 | tenant creation keeps the store invariant on success and on every failure; what it adds is in `ServiceEffects.CreateTenantExact` |
| `StoreInvariant.SetFeatureKeeps` | apps/tenants/models.py:74 | flag rows stay unique by tenant and name, global rows included |
| `StoreInvariant.AnonymizeKeeps` | services/users/gdpr_service.py:67-88 | erasure in place keeps the invariant, whether it commits or rolls back |
| `StoreInvariant.HardDeleteKeeps` | services/users/gdpr_service.py:116-121 | removing a user leaves no dangling reference and keeps the invariant |
| `AuditReplay.CreateRoleLog` | services/rbac/rbac_service.py:66-90 | after role creation, failed or not, the log still rebuilds the tables |
| `AuditReplay.DroppedInAnyOrder` | apps/audit/signals.py:84-123 | a batch delete keeps the log right whatever the order in which its rows are signalled |
| `AuditReplay.DeleteUserLog` | apps/rbac/models.py:129-135 | nulling an assigner without a signal is invisible to a canonical reader, and to a literal one when the user had assigned nobody |
| `Runs.CreateTenantStep` | services/tenants/tenant_service.py:66-87 | a tenant creation keeps a right log right exactly when it does not insert the tenant with a host that the domain column refuses |
| `Runs.SetFeatureStep` | services/features/feature_service.py:49-57 | a flag write keeps the log right as written exactly when the value, of any JSON kind, is spelled as it is stored or the name is refused; canonically it always does |
| `Runs.HardDeleteStep` | services/users/gdpr_service.py:105-121 | a hard delete keeps the log right as written exactly when the user is nobody else's recorded assigner |
| `Runs.AnonymizeStep` | services/users/gdpr_service.py:56-88 | anonymizing keeps the log right exactly when it does not roll back deletions it has already logged |
| `Runs.SeedKeeps` | services/demo/seed_service.py:32-48 | seeding keeps the store invariant on success and on every rollback, whatever the log has become |
| `Runs.SeedStep` | services/demo/seed_service.py:32-48 | seeding keeps a right log right exactly when it does not fail after inserting a demo tenant |
| `Runs.InvStep` | services/rbac/rbac_service.py:38-145 | every call, failing and leaking ones included, keeps the store invariant |
| `Runs.RunInv` | apps/rbac/models.py:86-139 | after every run one membership per user and tenant with a role of that tenant, one role per tenant and slug, grants on existing rows, and the default roles of every tenant |
| `Runs.RunWeights` | apps/tenants/apps.py:14-22 | after every run every tenant has an owner, an admin and a member role, weighing 30, 20 and 10 |
| `Runs.StepExact` | services/rbac/rbac_service.py:29-181 | a call keeps a right log right exactly when it does not leak and, for the log as written, is plain |
| `Runs.RunExact` | apps/audit/signals.py:8-123 | over a whole run the log rebuilds the tables after every step exactly when no step leaks (and every step is plain, for the log as written) |
| `Runs.ForwardReplay` | apps/audit/signals.py:22-123 | after every run, folding the queued deltas over empty tables gives the audited tables, read canonically |
| `Runs.ForwardReplayExact` | apps/audit/signals.py:22-123 | and gives them to the letter when every step is plain |
| `Runs.BackwardReplay` | apps/audit/signals.py:27-51 | undoing the last k deltas of any run gives what the deltas before them build |
| `InsideCalls.TravelInside` | apps/audit/signals.py:22-81 | where single saves of one call had left tables standing (a tenant creation, a role creation, a seed), undoing the deltas sent since gives exactly those tables |
| `Runs.TimeTravel` | apps/audit/signals.py:84-123 | undoing the deltas of the later part of a run gives the audited tables as they stood before that part, with users erased since then nulled |
| `Runs.TimeTravelExact` | apps/audit/signals.py:27-51 | the same to the letter when every step is plain |
| `TwoLogs.StepOutcome` | services/rbac/rbac_service.py:138-181 | with nothing assumed about either log, a call that writes an event about a seat leaves both sides equal, a silent erasure empties the seat and keeps the events, and any other call changes neither side |
| `TwoLogs.StepAgrees` | services/audit/audit_service.py:68-78 | a call keeps the last role event of a seat equal to the role looked up there, exactly when it does not erase the seat |
| `TwoLogs.RunAgreesExactly` | services/users/gdpr_service.py:163-168 | after any run the two agree about a seat exactly when the last call that touched it was not a silent erasure |
| `TwoLogs.TwoLogsAgree` | services/rbac/rbac_service.py:138-181 | after any run the last role event is the role looked up, exactly when the last call that touched the seat was no silent erasure; and unless deltas leaked, the membership rebuilt from the deltas alone is the one looked up |
| `AuditTrail.FiledUnderOwnTenant` | apps/audit/signals.py:53-58 | a change is filed under the tenant that its row names, except exactly a global flag changed on a tenant's host |
| `AuditTrail.FiledChange` | apps/audit/tasks.py:24-52 | column by column, what the table says of a change sent under a request and filed later: the tenant of the row, or for a global flag that of the request, and the request's user, each exactly if it still exists, with the kind of change and of row, and the change itself when read back |
| `AuditTrail.DeltaRoundTrip` | apps/audit/signals.py:68-81 | reading the columns of a queued change back gives the change, whatever the header and the resolved references |
| `AuditTrail.EventRoundTrip` | services/rbac/rbac_service.py:151-158 | reading the columns of a role event back gives the event, and no change |
| `AuditTrail.EventColumns` | services/rbac/rbac_service.py:151-180 | the columns of a role event's row: its action, the user it is about, the tenant, who did it, and the two e-mail addresses |
| `AuditTable.TableHolds` | apps/audit/signals.py:68-81 | in every interleaving of the worker and other writers with calls and their single sends, selecting the audit table by action gives all role events and the accepted ones of the changes taken so far, each in order; it gives all of them exactly when no message taken was refused |
| `AuditTable.DrainedTableRebuilds` | apps/audit/tasks.py:41-52 | filing what is pending after any such interleaving, with no leak and no refused message, gives a table that alone rebuilds the audited tables and the role events |
| `AuditTable.BadAddressLosesChange` | apps/audit/models.py:52 | one flag write under a forwarded address that is none: the message is taken, no row is filed, and the table does not rebuild the store |
| `AuditTable.AddressExact` | services/audit/audit_service.py:10-15 | the address of a request is what stands before the first comma of the forwarding header, without the spaces around it, and the peer's address only without that header |
| `AuditTable.ServiceRowExact` | services/audit/audit_service.py:44-75 | the row of an explicit log call names the given actor before the user of the request, with the e-mail of the one it names, and no empty address |
| `AuditTable.AuditLog.Log` | services/audit/audit_service.py:22-80 | writes one row with the given actor or else the user of the request, its e-mail, and the address behind the proxy header, or nothing when a column refuses |
| `AuditTable.AuditLog.LogRoleEvent` | services/rbac/rbac_service.py:151-158 | the role service's own rows add their event to those read back and leave the changes alone |
| `AuditTable.AuditLog.WriteAuditLog` | apps/audit/tasks.py:12-53 | files one row with every column as sent and references to rows that are gone nulled, or raises without a row exactly when a column refuses |
| `AuditTable.AuditLog.Drain` | apps/audit/tasks.py:12-53 | takes a queue once, in order, and loses nothing exactly when every message is acceptable; on the pending queue of an interleaving without leaks and refused messages the object's table then rebuilds the store |
| `Queries.HasRoleIsLookup` | services/rbac/rbac_service.py:187-222 | for a user who is no superuser, the existential join of `has_role` says that the uniquely fetched role is one of those asked for |
| `Queries.HasPermissionIsLookup` | services/rbac/rbac_service.py:243-259 | for a user who is no superuser, the three-table join of `has_permission` says that the code is in the fetched list |
| `Queries.HasRoleExact` | services/rbac/rbac_service.py:205-222 | nobody anonymous holds a role, every superuser holds every one in every tenant, and anybody else exactly those of a membership there whose role is among them |
| `Queries.HasPermissionExact` | services/rbac/rbac_service.py:228-247 | nobody anonymous holds a permission, every superuser holds every one in every tenant, and anybody else exactly those granted to the role of a membership there |
| `Queries.GetRoleExact` | services/rbac/rbac_service.py:187-194 | the fetched slug is that of the role row which the one membership row refers to, and there is none without such rows |
| `Queries.UserPermissionsExact` | services/rbac/rbac_service.py:249-259 | the fetched codes are exactly those granted to the role of the membership, each once |
| `Queries.CodesOfDistinct` | services/rbac/rbac_service.py:249-259 | the fetched list names no code twice |
| `Queries.MergedListIsLastRow` | services/features/feature_service.py:37-47 | on any flag table the merged list answers by the last row of each name, tenant before global, without repetition |
| `Queries.MergedListExact` | services/features/feature_service.py:9-47 | on any flag table the list and the point query agree about a name exactly when the first and the last row deciding it hold the same value |
| `Queries.MergedListIsPointQuery` | services/features/feature_service.py:9-47 | so they agree on every name when no tenant and name repeat, and the list repeats no name |
| `Queries.FeatureExact` | services/features/feature_service.py:9-28 | a feature is on exactly when an active row of its name is the tenant's own, or is global while the tenant has no row of that name |
| `Queries.DuplicateGlobalFlags` | apps/tenants/models.py:74 | two global rows of one name make the list and the point query disagree |
| `ServiceEffects.SetFeatureFrame` | services/features/feature_service.py:19-57 | an accepted flag write sets its own evaluation, and for a global write those of the tenants without an override, and no other; a refused one sets none |
| `ServiceEffects.SetFeatureRefusals` | services/features/feature_service.py:50-57 | a flag write succeeds exactly for a Boolean value and a name that the column takes or that is there; which error each refusal gives, and that it has no effect |
| `ServiceEffects.SetFeatureExact` | services/features/feature_service.py:52-56 | after a write there is one row of that tenant and name with the value, an existing one keeping its identifier and creation time, and every other row is as it was |
| `ServiceEffects.LaterWriteWins` | services/features/feature_service.py:50-57 | a later write to the same key makes the earlier one, accepted or not, irrelevant to every evaluation |
| `ServiceEffects.PermissionExact` | services/rbac/rbac_service.py:96-109 | the permission of a code is the one that is there, unchanged, or a new one with the description; a plain creation refuses a taken code; when the column refuses |
| `ServiceEffects.CreateRoleAllOrNothing` | services/rbac/rbac_service.py:51-90 | success exactly when the slug is free, the columns take the values and all codes exist; then the role is the one described, with exactly the requested codes, and no other role's change; which error an unknown code and a taken slug give; otherwise every table is as before, except exactly when an insertable role was asked for with a code that the lookup refuses |
| `ServiceEffects.FailedRoleDeltasCancel` | services/rbac/rbac_service.py:70-86 | on an unknown code the two deltas already sent compose to the identity on the tables |
| `ServiceEffects.AssignRoleExact` | services/rbac/rbac_service.py:115-159 | success exactly when the tenant has a role of that slug; then the user has one seat there, with that role, assigned by the named actor, an existing seat keeping its identifier and time; the event names the actor; every other seat and every other table stays |
| `ServiceEffects.RevokeRoleExact` | services/rbac/rbac_service.py:161-181 | the user has no seat in the tenant afterwards; the result and the event say exactly whether there was one; every other seat and every other table stays |
| `ServiceEffects.CreateTenantExact` | services/tenants/tenant_service.py:66-89 | success exactly when the slug is in the grammar, slug and host are free and every column takes its value; then exactly the tenant, its host and its Owner, Admin and Member roles weighing 30, 20 and 10 are added; the check on the schema name suffices for the slug column; a failure gives back every table, and has sent deltas exactly when it is the host's column that refuses |
| `ServiceEffects.AnonymizeConserves` | services/users/gdpr_service.py:56-103 | success exactly when nobody else has the placeholder name; then the user's row keeps its identifier and privilege and has the placeholder name and e-mail, empty names, no active mark and no usable password; no membership, notification or token of the user is left, the reported counts are the rows removed, and everyone else's rows are untouched |
| `ServiceEffects.HardDeleteConserves` | services/users/gdpr_service.py:116-168 | the user's row and its memberships, notifications and tokens are gone and counted; other rows change only where they named the user as assigner or actor, which becomes null, and none dangles |
| `Slugs.ValidateSlugExact` | services/tenants/tenant_service.py:22-37 | accepts exactly the inputs whose normal form is in the grammar, and gives that form |
| `Slugs.NormalByCharacter` | services/tenants/tenant_service.py:22-28 | character by character, the normal form is the text without the spaces around it, in lower case, with a hyphen for each inner space; of spaces alone it is empty |
| `Slugs.SlugByCharacter` | services/tenants/tenant_service.py:12 | character by character, the grammar is lower-case letters, digits and single hyphens between them |
| `Slugs.ValidateSlugFixed` | services/tenants/tenant_service.py:31-37 | an accepted slug is its own normal form and is accepted again unchanged |
| `Slugs.MatchesGrammar` | services/tenants/tenant_service.py:12 | the pattern recognises the word grammar |
| `Slugs.SplitJoin` | services/tenants/tenant_service.py:12 | splitting a join of hyphen-free words gives the words back |
| `Slugs.JoinSplit` | services/tenants/tenant_service.py:12 | joining a split gives the slug back |
| `Gates.UrlTenantDecides` | apps/rbac/permissions.py:35-52 | with a tenant in the URL neither header nor host changes a decision, and the two role gates agree |
| `Gates.TenantPriority` | apps/rbac/permissions.py:35-52 | the URL before the header before the host; an identifier that no tenant has gives none, and nothing further is tried |
| `Gates.RoleGatesExact` | apps/rbac/permissions.py:60-125 | each role gate opens exactly to a caller who is a superuser, or has a membership with one of the roles, in the tenant of the request; the permission class also when nothing is required |
| `Gates.TenantAuthorizedExact` | apps/common/permissions.py:19-36 | never without a tenant; for a superuser exactly the feature test; for anybody else the feature test and the fetched list; an asked-for permission is never granted anonymously |
| `Gates.MeExact` | services/rbac/rbac_service.py:262-288 | the context endpoint gives the role object, the codes and the features of the user in that tenant, in terms of rows, and lists nothing twice |
| `Gates.GuardRefinesGate` | examples/frontend/components/Guard.tsx:18-39 | while loading nothing is shown; on a fresh context the guard renders exactly when the server gate allows; for a superuser rendering implies allowed, with the exact difference |
| `Gates.GuardInEveryRun` | apps/common/permissions.py:19-36 | the same in every state that a run of service calls reaches, leaking runs included |
| `Gates.AuthProvider.LoadContext` | examples/frontend/contexts/AuthContext.tsx:37-52 | what a fetch, a failed fetch and a missing tenant or token leave in the context |
| `Isolation.OnlyThoseInCharge` | apps/rbac/views.py:120-197 | a request changes a tenant's roles, grants, memberships or flags only if it is addressed to it by a superuser or one of its owners or admins |
| `Isolation.TenantIsolation` | apps/tenants/views.py:49-64 | over any run of requests by callers not initially in charge of a tenant, its tables and every role, permission and feature answer in it stay the same |
| `ViewEffects.AnswerExact` | apps/rbac/permissions.py:111-125 | 401 exactly to a caller who is no user, 403 exactly to a user who is neither a superuser nor owner or admin of the tenant in the URL, or names none, 400 exactly to a body that cannot be used, 404 never; none of them changes anything |
| `ViewEffects.AssignToServed` | apps/rbac/views.py:160-174 | an admitted assignment gives the named user the named role in the tenant of the URL, assigned by the caller, exactly when the tenant has that role; every other seat stays |
| `ViewEffects.RevokeFromServed` | apps/rbac/views.py:188-197 | an admitted revocation succeeds and leaves the named user without a seat in that tenant; every other seat stays |
| `ViewEffects.DefineRoleServed` | apps/rbac/views.py:120-143 | an admitted role definition adds the role described with exactly the codes asked for, exactly when its slug is free, the columns take it and every code exists |
| `ViewEffects.ToggleServed` | apps/tenants/views.py:49-64 | an admitted toggle sets that feature for that tenant and no other evaluation, exactly when the value is a Boolean one and the name is taken; otherwise it has no effect |
| `ViewEffects.LastRequestDecides` | apps/rbac/views.py:160-197 | once an assignment is served the user has its role there through any further requests that are not about the same user and tenant |
| `Views.Respond` | apps/rbac/views.py:120-197 | on the store object a request through authentication, role gate and view does and answers what the request function does, which `ViewEffects` describes |
| `Views.ServeAll` | apps/rbac/permissions.py:111-125 | served one after the other, requests by callers not in charge of a tenant leave what its answers depend on untouched in the store object |
| `TenantCache.BoundedStaleness` | apps/tenants/middleware.py:111-135 | in every interleaving, a resolution at t is what the database answered within the last 300 + d seconds, or 60 + d for "not found" |
| `TenantCache.SettledHost` | apps/tenants/middleware.py:48-49 | a host unchanged for 300 + d resolves as a plain database lookup |
| `TenantCache.InactiveIsRefused` | apps/tenants/middleware.py:94-98 | a tenant inactive for 300 + d is refused on every path that is not exempt |
| `TenantCache.RefusalExact` | apps/tenants/middleware.py:20-37 | a request is refused exactly when its tenant is inactive and its path is neither the root nor below one of the seven exempt prefixes |
| `TenantCache.InvalidationExact` | apps/tenants/middleware.py:137-140 | after an invalidation every later resolution of the host, in every continuation, is an answer given since then, exactly when no lookup past its database read holds an outdated answer |
| `TenantCache.StaleAfterInvalidation` | apps/tenants/middleware.py:127-131 | the staleness bound is tight to the second, for a lookup under way when the host changes and is invalidated at once |
| `TenantCache.ServedFromCache` | apps/tenants/middleware.py:111-135 | an answer that a lookup wrote serves every later lookup of the host without a database read for exactly 300 seconds, or 60 for "not found", in every continuation that leaves the entry alone |
| `TenantCache.SequentialLookup` | apps/tenants/middleware.py:118-135 | the three steps of the interleaved machine, taken alone, are the sequential lookup |
| `TenantCache.TenantMiddleware.ResolveTenant` | apps/tenants/middleware.py:111-135 | a live entry answers and the cache is kept; otherwise the database answers and exactly that host's entry is replaced |
| `TenantCache.TenantMiddleware.InvalidateCache` | apps/tenants/middleware.py:137-140 | drops the entry of one host |
| `TenantCache.TenantMiddleware.Call` | apps/tenants/middleware.py:85-109 | which requests are refused, which tenant a view sees, and that the tenant context does not outlive the request |
| `Idempotency.SuccessesSpaced` | services/common/idempotency.py:44-52 | successful executions of one key complete at least the time to live apart |
| `Idempotency.ExecutionBound` | services/common/idempotency.py:33-52 | a window of length L holds at most 1 + L / ttl of them |
| `Idempotency.DuplicatesAreCached` | services/common/idempotency.py:39-48 | over any sequence of attempts, every duplicate within the time to live of an execution gets its cached result, however many attempts later |
| `Idempotency.AttemptExactly` | services/common/idempotency.py:44-52 | over any sequence of attempts, one is answered from the cache exactly when an earlier execution with a result other than `None` ends less than a lifetime before it starts, with that result; otherwise the operation runs, and the attempt gives what it gives |
| `Idempotency.DuplicateExactly` | services/common/idempotency.py:46-48 | the attempt right after an execution is answered from the cache exactly when the result was not `None` |
| `Idempotency.FailureKeepsCache` | services/common/idempotency.py:50-51 | an attempt that raises leaves the cache as it was, and raises exactly when there is no live entry and the operation raises |
| `Idempotency.NoneIsRunAgain` | services/common/idempotency.py:47-51 | with results of `None` executions are not spaced at all |
| `Idempotency.KeysDistinct` | services/common/idempotency.py:22-30 | the text of a cache key, and that keys of one task collide only for the same business identifier |
| `Idempotency.IdempotencyService.Run` | services/common/idempotency.py:32-52 | one attempt takes its key's entry to the next one of the sequence that `Idempotency.AttemptExactly` describes, and leaves all other entries untouched |
| `Idempotency.IdempotencyService.Deliver` | apps/common/celery_policy.py:7-20 | a delivery makes one to four attempts, stops at the first that does not raise, and raises only after the fourth |
| `Idempotency.IdempotencyService.DeliverAll` | apps/users/tasks.py:33-49 | successive deliveries of a key make exactly the first attempts of their plans, one delivery after the other, each up to the first that does not raise and four at most; each returns its last attempt's result, and any j - i + 1 executions span at least (j - i) lifetimes |
| `RoleMigration.MigrationPreservesMeaning` | apps/rbac/migrations/0003_permission_role_alter_usertenantrole_role_and_more.py:31-49 | every membership gets a role of its own tenant whose slug is the cleaned old name, or member when that is empty or unknown, and the rollback writes exactly that slug; `RelinkByCharacter` says what cleaning gives |
| `RoleMigration.RelinkByCharacter` | apps/rbac/migrations/0003_permission_role_alter_usertenantrole_role_and_more.py:32-41 | an old name that is a text with spaces around it is linked to the tenant's role whose slug is that text in lower case, character by character, and without one to the member role; the rollback writes the slug of the role linked |
| `RoleMigration.RelinkBlank` | apps/rbac/migrations/0003_permission_role_alter_usertenantrole_role_and_more.py:33-39 | an empty name is linked to the member role, and so are spaces alone unless the tenant has a role with the empty slug |
| `RoleMigration.RollbackExact` | apps/rbac/migrations/0003_permission_role_alter_usertenantrole_role_and_more.py:44-49 | rolling back writes the slug of the linked role and leaves an unlinked row alone |
| `RoleMigration.MeantDefault` | apps/rbac/migrations/0003_permission_role_alter_usertenantrole_role_and_more.py:14-41 | with the roles the migration itself creates, that slug is the cleaned name if it is owner, admin or member, and member otherwise |
| `RoleMigration.RoundTrip` | apps/rbac/migrations/0003_permission_role_alter_usertenantrole_role_and_more.py:31-49 | rolling back is the identity on exactly the rows that held owner, admin or member |
| `RoleMigration.MigrationState.CreateDefaults` | apps/rbac/migrations/0003_permission_role_alter_usertenantrole_role_and_more.py:14-29 | the nested loops leave every tenant with its default roles, keep every role that was there and add only default roles |
| `RoleMigration.MigrationState.Relink` | apps/rbac/migrations/0003_permission_role_alter_usertenantrole_role_and_more.py:31-41 | the loop rewrites each membership in place as the row function does that `RelinkByCharacter` and `RelinkBlank` describe, and no other |
| `RoleMigration.MigrationState.MigrateRoles` | apps/rbac/migrations/0003_permission_role_alter_usertenantrole_role_and_more.py:9-41 | both loops together, with the roles of the first in the second |
| `RoleMigration.MigrationState.RollbackRoles` | apps/rbac/migrations/0003_permission_role_alter_usertenantrole_role_and_more.py:44-49 | writes back the slug of each linked role and leaves unlinked rows alone |
| `RoleMigration.MigrationState.MigrateAndRollBack` | apps/rbac/migrations/0003_permission_role_alter_usertenantrole_role_and_more.py:9-49 | on the whole table, migrating and rolling back leaves every row with the name its old name means; from an empty role table exactly owner, admin and member come back unchanged |
| `SeedIdempotence.SeedSettles` | services/demo/seed_service.py:50-135 | a seed that succeeds leaves the demo tenants, hosts, mapped permissions and the seated administrator |
| `SeedIdempotence.SeedWrittenOut` | services/demo/seed_service.py:50-135 | a seed that succeeds, written out: the two named tenants with their hosts, the codes that each of their three roles holds and no others, and the administrator of the first |
| `SeedFrame.SeedLeavesAlone` | services/demo/seed_service.py:32-135 | a seed touches nothing outside the two demo tenants, the administrator's account and its seat; no tenant or account changes between active and inactive and nobody becomes a superuser; a seed that fails gives back every table |
| `SeedIdempotence.SeededIsFixed` | services/demo/seed_service.py:32-48 | on such a store a seed changes no table, sends no delta and adds one event |
| `SeedIdempotence.SeedSucceedsExactly` | services/demo/seed_service.py:93-106 | a seed succeeds exactly when nobody else holds a slug or host of the demo tenants, where the first of them may hold the slug of the second |
| `SeedIdempotence.SeedLeaksExactly` | services/demo/seed_service.py:32-48 | the stores, described before the call, from which a failing seed leaves deltas of rolled-back rows in the log |
| `SeedIdempotence.SeedIdempotent` | services/demo/seed_service.py:32-135 | from any store where a seed succeeds, retries after a leaking failure included, a second seed changes nothing but one event, and each demo role holds exactly its mapped permissions |
| `FailingRuns.SeedLeaks` | services/demo/seed_service.py:93-101 | a tenant named tenant2, then a seed: the log no longer rebuilds the tables |
| `FailingRuns.LongHostLeaks` | apps/tenants/models.py:27 | a tenant with a host of 254 characters: no tenant is there and the log no longer rebuilds the tables |
| `FailingRuns.UncleanCodeKeepsRole` | services/rbac/rbac_service.py:70-79 | a role asked for with a code holding a zero character: the call raises and the role stays |
| `FailingRuns.AnonymizeLeaks` | services/users/gdpr_service.py:67-88 | a placeholder name that is taken: the deletion already sent is rolled back |
| `FailingRuns.HardDeleteBreaksLog` | apps/rbac/models.py:129-135 | deleting an assigner breaks the log as written |
| `FailingRuns.MisspeltFlagBreaksLog` | apps/tenants/views.py:52-56 | toggling with 1, 1.0, "t" or "1" breaks the log as written |
| `FailingRuns.ErasureBreaksEvents` | services/users/gdpr_service.py:163-168 | anonymizing a seated user makes the two logs disagree |

## Left out

- Runs.BackwardReplay: for a `k` that cuts the deltas of a batch delete, the tables it gives are those that the earlier deltas build; the rows of a batch go before their deltas are sent, so no table stood there. Between single saves `InsideCalls.TravelInside`, and at call boundaries `Runs.TimeTravel`, speak of the tables themselves.
- ServiceEffects.CreateTenantExact: lower-cases a host only over A-Z and the Kelvin sign; two hosts that differ in the case of another letter are one host in the code and two here. Such letters never make a slug valid.
- RoleMigration.RelinkByCharacter: likewise lower-cases an old name only over A-Z and the Kelvin sign.
- ServiceEffects.CreateRoleAllOrNothing: a lone surrogate in a code is refused like a zero character in the code; it is no character here.
- Many-to-many grants are not in the delta log (they are not model fields), so replay rebuilds roles, memberships and flags but not grants.
- A failing audit write: swallowed by the code; the agreement of the two logs assumes that writes succeed.
- Authentication itself (tokens, inactive users), throttling, pagination and the two list views.
- A malformed tenant identifier in the URL or header: identifiers are numbers here.
- Field validation in serializers: one Boolean of a request stands for its verdict.
- Order of the permission codes in a list and of roles in a listing: only membership and absence of repetition are stated.
- Timestamps of tenants, and password hashes: a user has only the mark of a usable password.
- User registration enters as the insert of a row with a fresh name and e-mail that fit their columns; its other validation, the welcome e-mail text and its sending are not modelled.
- Two overlapping deliveries of one idempotency key, and eviction of a cache entry before it expires: the code takes no lock, so the bound is for deliveries one after the other.
- The time between retries: attempts are in order, at any times.
- Tenant deletion and edits in the admin: no service performs them.
- Soft delete, notification read flags, e-mail, health checks, WebSockets.
- Loading and effect scheduling of the client components; a fetch is its outcome.
- Role weights as a hierarchy: no code compares them.
- Two calls at the same time, and reordering or loss of messages by the message queue.
