# Single-table user store and its migration, in Dafny

This project models the backend data-access layer of a micro-frontend
application. The layer keeps users and dashboard statistics in Amazon
DynamoDB, in one of two layouts:

- **Legacy layout.** A users table and a dashboard table are each keyed by
  the string attribute `id`. The dashboard table has a reserved row with
  `id = "stats"`.
- **Single-table layout.** One table is keyed by `(PK, SK)`:
  - a user's profile row lives at `(USER#<id>, PROFILE)` and carries
    `GSI1PK = EMAIL#<email>` and `GSI1SK = USER#<id>`, so that the secondary
    index GSI1 finds users by email;
  - a user's dashboard row lives at `(USER#<id>, DASHBOARD#STATS)`;
  - the global dashboard row lives at `(DASHBOARD#GLOBAL, STATS)`.

A one-shot migration script copies the legacy tables into the single table.

Every operation is a pure function or method over immutable maps:
- a table is a `map` from key to item;
- an item is a `map` from attribute name to a string or a number.

The operations take the state before the call and return the state after it
together with the result. Whatever the model cannot see is a parameter:
- the clock (`now`);
- the fresh uuid of a created user;
- the fallback mock data;
- whether the backend answers (`Backend`).

JavaScript's `??` and `||` are modelled as `LookupOr` and `OrIfFalsy`.
Under `||`, the empty string and `0` count as missing. `LookupOr` also gives
the item a DynamoDB UpdateItem starts from.

DynamoDB semantics that the code relies on are modelled as DynamoDB behaves:
- the condition of a PutItem is evaluated only against the item stored at
  the target key;
- an UpdateItem on a missing key creates the item;
- a secondary index holds only items that carry both index attributes;
- which row a `Limit: 1` index query returns, and the order a scan returns
  rows in, are left to the backend (the methods choose with `:|`).

Modules, one per file:
- `Wrappers`: `Option` and `Result`.
- `Values`: attribute values, items, and JavaScript truthiness.
- `Storage`: keys, tables, the backend flag, upserts and the scan.
- `KeyCodec`: the single-table key encoding, and `String.prototype.replace`
  with a string pattern.
- `UserFields`: the user record and the partial-update `SET` clause.
- `UserRepository`: the single-table user service.
- `LegacyUsers`: the legacy user service.
- `LegacyDashboard`: the legacy dashboard service.
- `Migration`: the migration script.
- `Layouts`: how the layouts relate to each other.

Behaviour of the code that the model keeps as it is:
- Every failed create, whether the key was taken or the backend failed, is
  reported as the one generic error "Failed to create user".
- `updateUser` on an id that is not stored creates a partial row; it does
  not fail.
- Ids and emails are not checked for being non-empty before keys are built.
- `createUser` reads the clock twice, so `createdAt` and `updatedAt` are
  separate inputs and are not claimed to be equal.
- An update that supplies no truthy field sends an empty
  `ExpressionAttributeNames` map, which DynamoDB rejects, so that update fails.

## Model

| member | source | states |
|---|---|---|
| Values.MissingAndFalsyDefaults | apps/backend/scripts/migrate-to-single-table.ts:137-166 | `x ?? d` and `x \|\| d` both give `d` for a missing attribute and both keep a truthy one; they differ exactly on a present falsy attribute other than `d`, which `??` keeps and `\|\|` replaces |
| Storage.FreshUpsertHoldsOnlyKey | apps/backend/.build/src/services/UserService.js:118-126 | an UpdateItem on a key that is not stored starts from an item holding only `PK` and `SK`, which carries that key |
| Storage.ScanKeys | apps/backend/src/services/UserService.ts:10-15 | a scan visits every key of the table exactly once, in some order |
| KeyCodec.IndexOf | apps/backend/.build/src/services/UserService.js:22 | the result is the first position where the pattern occurs, and none when it does not occur |
| KeyCodec.RemoveFirst | apps/backend/.build/src/services/UserService.js:22 | `replace` with a string pattern removes only the first occurrence, and leaves a string without one unchanged |
| KeyCodec.StripUserPrefix | apps/backend/.build/src/services/UserService.js:22 | removing `USER#` from `USER#<id>` gives back the id |
| KeyCodec.UserPkInjective | apps/backend/.build/src/services/UserService.js:41 | two ids share a `USER#` partition key only if they are equal |
| KeyCodec.EmailIndexPkInjective | apps/backend/.build/src/services/UserService.js:77 | two emails share an `EMAIL#` index key only if they are equal |
| KeyCodec.KeysDisjoint | apps/backend/scripts/migrate-to-single-table.ts:97-98 | profile rows, per-user dashboard rows and the global dashboard row never share a key, and each kind of key is injective in the id |
| UserFields.SetClause | apps/backend/.build/src/services/UserService.js:98-117 | the `SET` clause assigns name, email or status exactly when that input is truthy, always assigns `updatedAt = now`, and assigns nothing else |
| UserFields.ApplyUpdate | apps/backend/.build/src/services/UserService.js:101-125 | after the update, supplied fields hold their new values, unsupplied ones keep their old values, `updatedAt` is now, and every other attribute (createdAt, keys, index keys) is unchanged |
| UserRepository.ViewOf | apps/backend/.build/src/services/UserService.js:47-54 | the returned record copies name and email, defaults status to ACTIVE and missing timestamps to now, and keeps present values |
| UserRepository.SeedLookup | apps/backend/.build/src/services/UserService.js:59 | the fallback returns the first seed user with the id, and null exactly when no seed user has it |
| UserRepository.GetAllUsers | apps/backend/.build/src/services/UserService.js:9-36 | one normalised record per row with SK = PROFILE, each row once; the mock list when the backend fails or a row's id cannot be read |
| UserRepository.GetUserById | apps/backend/.build/src/services/UserService.js:37-61 | a result exactly when `(USER#id, PROFILE)` is stored; its id is the argument and its fields are normalised from that row; the seed lookup when the backend fails |
| UserRepository.GetUserByIdReadsOnlyProfileKey | apps/backend/.build/src/services/UserService.js:39-42 | two tables that agree on the profile key give the same answer |
| UserRepository.CreateUser | apps/backend/.build/src/services/UserService.js:62-95 | success exactly when the backend answers and the profile key is free; success writes exactly the profile row; a failure leaves the table unchanged with "Failed to create user" |
| UserRepository.ProfileRowRoundTrip | apps/backend/.build/src/services/UserService.js:74-85 | a profile row carries its key, passes the listing filter, is indexed under its email, and reads back as the user it was written from by id, by listing and by index |
| UserRepository.CreateThenGet | apps/backend/.build/src/services/UserService.js:62-89 | after creating a fresh id, reading it back gives the same name and email, status ACTIVE and the two timestamps |
| UserRepository.CreateThenFindByEmail | apps/backend/.build/src/services/UserService.js:156-176 | after creating a user under an unused email, the index finds that email only at the new row |
| UserRepository.CreateKeepsIndexConsistent | apps/backend/.build/src/services/UserService.js:74-86 | after a create, every profile row is still indexed under its own email |
| UserRepository.CreateIgnoresEmailIndex | apps/backend/.build/src/services/UserService.js:86 | with a fresh id, a create succeeds even when another row is already indexed under the email |
| UserRepository.DuplicateEmailExample | apps/backend/.build/src/services/UserService.js:86 | two users end up indexed under one email |
| UserRepository.CreateUserUniqueEmail | apps/backend/.build/src/services/UserService.js:86 | the corrected create succeeds exactly when the id and the email are both unused |
| UserRepository.CreateUniqueKeepsEmailsUnique | apps/backend/.build/src/services/UserService.js:86 | the corrected create never puts two rows under one index key |
| UserRepository.UpdateOfMissingUserCreatesUnindexedRow | apps/backend/.build/src/services/UserService.js:118-126 | updating an id that is not stored creates a profile row at its key with no createdAt, with name, email and status only if supplied, and indexed under no email |
| UserRepository.UpdateUser | apps/backend/.build/src/services/UserService.js:96-141 | only `(USER#id, PROFILE)` changes and it is created if absent; supplied fields are set, others kept, `updatedAt` is now; the result is the normalised new row; a failure leaves the table unchanged |
| UserRepository.UpdateEmailLeavesIndexStale | apps/backend/.build/src/services/UserService.js:106-125 | after changing an email, the index still finds the row under the old email and finds nothing under the new one |
| UserRepository.StaleIndexExample | apps/backend/.build/src/services/UserService.js:106-125 | a user created with one email and then given another leaves the table inconsistent with its index |
| UserRepository.UpdateUserReindexed | apps/backend/.build/src/services/UserService.js:106-125 | the corrected update returns what the update returns and fails when it fails; it changes only the profile key, which it creates if absent; with a new email it sets `GSI1PK = EMAIL#<email>` and `GSI1SK = USER#<id>` on the updated row, so the row is indexed under that email; without one it is the update |
| UserRepository.ReindexedUpdateAgreesOnFields | apps/backend/.build/src/services/UserService.js:96-135 | the corrected row agrees with the updated row on every attribute other than the two index keys, keeps the old index keys when no email is supplied, and the returned record is the normalised corrected row |
| UserRepository.UpdateReindexedKeepsIndexConsistent | apps/backend/.build/src/services/UserService.js:106-125 | the corrected update keeps every profile row indexed under its own email |
| UserRepository.DeleteUser | apps/backend/.build/src/services/UserService.js:142-155 | removes exactly the profile key, and returns true whether or not the row existed; a failure leaves the table unchanged |
| UserRepository.DeleteIdempotent | apps/backend/.build/src/services/UserService.js:142-149 | deleting twice gives the same table and result as deleting once |
| UserRepository.DeleteKeepsDashboardRows | apps/backend/.build/src/services/UserService.js:144-147 | the user's dashboard row and the global row survive the delete |
| UserRepository.DeleteKeepsIndexConsistent | apps/backend/.build/src/services/UserService.js:142-149 | a delete keeps every profile row indexed under its own email |
| UserRepository.GetUserByEmail | apps/backend/.build/src/services/UserService.js:156-182 | a result exactly when some row is indexed under the email, taken from such a row; null when the backend fails |
| LegacyUsers.GetAllUsers | apps/backend/src/services/UserService.ts:8-20 | every item of the table, each once; "Failed to fetch users" when the backend fails |
| LegacyUsers.GetUserById | apps/backend/src/services/UserService.ts:22-35 | the item keyed by the id, or null; "Failed to fetch user" when the backend fails |
| LegacyUsers.CreateUser | apps/backend/src/services/UserService.ts:37-59 | an unconditional put of the user record under its id, which is also returned; other keys are unchanged |
| LegacyUsers.CreateThenGet | apps/backend/src/services/UserService.ts:37-54 | a created user reads back as the stored record |
| LegacyUsers.UpdateUser | apps/backend/src/services/UserService.ts:61-103 | the truthy-only partial update of the item keyed by the id, created if absent; returns every attribute after the update; an update with no truthy field fails and changes nothing |
| LegacyUsers.UpdateOfMissingUserCreatesPartialItem | apps/backend/src/services/UserService.ts:88-95 | updating an absent id creates an item with no createdAt, and with name or email only if they were supplied |
| LegacyUsers.UpdateKeepsUserTable | apps/backend/src/services/UserService.ts:61-98 | an update keeps the table keyed by `id`, with string names and emails |
| LegacyUsers.CreateAndDeleteKeepUserTable | apps/backend/src/services/UserService.ts:37-54 | creates and deletes keep the table keyed by `id`, with string names and emails |
| LegacyUsers.DeleteUser | apps/backend/src/services/UserService.ts:105-118 | removes exactly the id and returns true; "Failed to delete user" when the backend fails |
| LegacyUsers.DeleteIdempotent | apps/backend/src/services/UserService.ts:105-113 | deleting twice gives the same table and result as deleting once |
| LegacyDashboard.UpdateStats | apps/backend/src/services/DashboardService.ts:39-53 | stores every given field, with lastUpdated overwritten to now, under the record's id; write errors are swallowed and leave the table unchanged |
| LegacyDashboard.GetDashboardStats | apps/backend/src/services/DashboardService.ts:8-37 | returns a present `stats` row unchanged, without writing; otherwise writes and returns the zero counters; returns the mock stats when the backend fails |
| LegacyDashboard.UpdateStatsThenGet | apps/backend/src/services/DashboardService.ts:8-53 | after `updateStats` of the `stats` record, `getDashboardStats` returns it without writing, with every field as given and lastUpdated the time of the write |
| LegacyDashboard.IncrementUserCount | apps/backend/src/services/DashboardService.ts:55-67 | totalUsers and activeUsers grow by one, missing ones counting as 0, and every other field is kept |
| LegacyDashboard.DecrementUserCount | apps/backend/src/services/DashboardService.ts:69-81 | totalUsers and activeUsers become `max(0, x - 1)`, so they are never negative, and every other field is kept |
| LegacyDashboard.IncrementThenTwoDecrements | apps/backend/src/services/DashboardService.ts:22-77 | without a stats row, one increment gives 1 and 1, and two further decrements give 0 and 0 |
| LegacyDashboard.IncrementThenDecrementRestores | apps/backend/src/services/DashboardService.ts:60-75 | for counters that are not negative, an increment followed by a decrement restores both counters |
| LegacyDashboard.CountersKeepKeyed | apps/backend/src/services/DashboardService.ts:55-81 | the counter operations keep the dashboard table keyed by `id` |
| Migration.FirstFinal | apps/backend/scripts/migrate-to-single-table.ts:112-114 | the scan loop stops at the first response without a continuation key |
| Migration.UserRow | apps/backend/scripts/migrate-to-single-table.ts:85-108 | the put of a legacy user fails exactly when its name or email is undefined |
| Migration.UserRowContents | apps/backend/scripts/migrate-to-single-table.ts:86-107 | the row has exactly the ten attributes written, carries `(USER#id, PROFILE)`, is indexed under `EMAIL#<email>` with `GSI1SK = USER#id`, copies id, name and email, keeps a present status (else ACTIVE) and present timestamps (else the migration's clock) |
| Migration.PutPage | apps/backend/scripts/migrate-to-single-table.ts:85-111 | the inner loop puts one row per item and counts it, stopping at the first failing put |
| Migration.MigrateUsers | apps/backend/scripts/migrate-to-single-table.ts:77-116 | the users pass with its two loops; on success `migrated` is the number of items in all the responses requested |
| Migration.UsersPassCounts | apps/backend/scripts/migrate-to-single-table.ts:79-115 | a successful users pass counts every item of the requested responses |
| Migration.UsersPassStopsAtFinalPage | apps/backend/scripts/migrate-to-single-table.ts:112-114 | responses after the first one without a continuation key are never requested and do not affect the pass |
| Migration.PutUsersAppend | apps/backend/scripts/migrate-to-single-table.ts:81-114 | putting two runs of items is putting the first and, unless one of its puts failed, the second from where the first stopped |
| Migration.UsersFromPutsConsumed | apps/backend/scripts/migrate-to-single-table.ts:79-114 | the paginated users pass is the put of all items of the requested responses, in scan order, stopping at the first failing put |
| Migration.PutUsersOk | apps/backend/scripts/migrate-to-single-table.ts:85-111 | the puts succeed exactly when every item has both a name and an email |
| Migration.PutUsersKeepsOtherRows | apps/backend/scripts/migrate-to-single-table.ts:93-109 | the puts leave every row other than the items' profile keys as it was, and add no other key, whether or not they all succeed |
| Migration.PutUsersWritesRow | apps/backend/scripts/migrate-to-single-table.ts:85-111 | when the puts succeed, an item that no later item shares an id with leaves its migrated row under its profile key |
| Migration.PutUsersWritesRows | apps/backend/scripts/migrate-to-single-table.ts:85-111 | after successful puts, each item's profile key holds its migrated row, unless a later item with the same id overwrote it |
| Migration.UsersPassRows | apps/backend/scripts/migrate-to-single-table.ts:77-116 | the users pass succeeds exactly when the backend answers and every requested item has a name and an email; it changes only those items' profile keys, and on success each holds the row of the last item with its id |
| Migration.PutUsersOverlay | apps/backend/scripts/migrate-to-single-table.ts:93-108 | the puts overwrite the starting table with what they would write into an empty table; the count and the outcome do not depend on the table |
| Migration.UsersFromOverlay | apps/backend/scripts/migrate-to-single-table.ts:81-114 | the same overlay holds across all requested responses |
| Migration.UsersFromClockFree | apps/backend/scripts/migrate-to-single-table.ts:90-91 | when every legacy user has both timestamps, the pass does not depend on the clock |
| Migration.UsersPassIdempotent | apps/backend/scripts/migrate-to-single-table.ts:93-108 | when every legacy user has both timestamps, a re-run at any time leaves the table, the count and the outcome as the first run left them |
| Migration.GlobalRow | apps/backend/scripts/migrate-to-single-table.ts:121-143 | the global row copies each truthy legacy `stats` counter and has 0 otherwise, all zeros when that row is absent, and lastUpdated now |
| Migration.UserStatsRow | apps/backend/scripts/migrate-to-single-table.ts:157-169 | a per-user dashboard row carries `(USER#id, DASHBOARD#STATS)`, has exactly the four counters and lastUpdated besides its key, copies present counters, has 0 for missing ones, and has lastUpdated now |
| Migration.CopyStatsSpec | apps/backend/scripts/migrate-to-single-table.ts:154-172 | the per-user copy skips `stats`, counts every other item, and writes only per-user dashboard rows of other ids |
| Migration.CopyStatsKeys | apps/backend/scripts/migrate-to-single-table.ts:154-171 | the per-user copy adds exactly the `(USER#id, DASHBOARD#STATS)` keys of the items that are not `stats` |
| Migration.CopyStatsKeepsOtherRows | apps/backend/scripts/migrate-to-single-table.ts:154-171 | every row that is not the per-user key of a copied item is left as it was |
| Migration.CopyStatsWritesRow | apps/backend/scripts/migrate-to-single-table.ts:154-171 | an item other than `stats` that no later item shares an id with leaves its per-user row under its key |
| Migration.CopyStatsWritesRows | apps/backend/scripts/migrate-to-single-table.ts:154-171 | each item other than `stats` leaves its per-user row under its key, unless a later item with the same id overwrites it |
| Migration.CopyStatsAppend | apps/backend/scripts/migrate-to-single-table.ts:150-174 | copying two runs of items is copying the first and then the second from where the first stopped |
| Migration.StatsFromCopiesConsumed | apps/backend/scripts/migrate-to-single-table.ts:148-174 | the paginated copy is the copy of all items of the requested responses, in scan order |
| Migration.StatsFromCounts | apps/backend/scripts/migrate-to-single-table.ts:148-175 | `copied` is the number of items other than `stats` in the requested responses |
| Migration.StatsFromWritesOnlyUserStats | apps/backend/scripts/migrate-to-single-table.ts:148-174 | across all responses the per-user copy writes only per-user dashboard rows of ids other than `stats` |
| Migration.DashboardPassSpec | apps/backend/scripts/migrate-to-single-table.ts:118-176 | the dashboard pass fails exactly when the backend does; otherwise the global row survives the per-user copy and the count is that of the items other than `stats` |
| Migration.DashboardPassRows | apps/backend/scripts/migrate-to-single-table.ts:118-176 | a reachable dashboard pass adds exactly the global key and the copied per-user keys, leaves every other row as it was, writes the global row, and leaves under each per-user key the row of the last item with that id |
| Migration.Run | apps/backend/scripts/migrate-to-single-table.ts:178-190 | phases run in the order ensure, users, dashboard, each with its own backend outcome; the first failure skips the rest and exits with 1, keeping writes already made; a dashboard failure after a successful users pass keeps the users pass's table; legacy tables are never written |
| Migration.RunSuccessKeepsRows | apps/backend/scripts/migrate-to-single-table.ts:178-190 | a run exits with 0 exactly when the table was ensured and both passes completed; then every profile row of the users pass survives, the global row is in place, and each non-`stats` id has the row of its last legacy dashboard item |
| Migration.RunMigratesUsers | apps/backend/scripts/migrate-to-single-table.ts:178-190 | a run that exits with 0 leaves, under the profile key of each requested legacy user, the row of the last item with that id |
| Layouts.LegacyUserMigratesToProfileRow | apps/backend/scripts/migrate-to-single-table.ts:85-108 | a legacy user row migrates to exactly the profile row single-table `createUser` writes for the same user |
| Layouts.MigrateUsersCountsAll | apps/backend/scripts/migrate-to-single-table.ts:85-111 | migrating rows written by legacy `createUser` succeeds and counts each of them |
| Layouts.MigrateDistinctUsers | apps/backend/scripts/migrate-to-single-table.ts:93-108 | for users with distinct ids, migration puts each user's profile row at that user's profile key |
| Layouts.MigrateUsersKeepsOtherKeys | apps/backend/scripts/migrate-to-single-table.ts:93-108 | migrating legacy users leaves every key other than their profile keys unchanged |
| Layouts.MigrateUsersWritesOnlyProfiles | apps/backend/scripts/migrate-to-single-table.ts:93-108 | migrating legacy users writes nothing except their profile keys |
| Layouts.PutUsersKeepsLayout | apps/backend/scripts/migrate-to-single-table.ts:96-100 | migrated rows carry their own key and are indexed under their own email |
| Layouts.PartialLegacyItemBlocksMigration | apps/backend/src/services/UserService.ts:88-95 | an item that a legacy update created for an absent id can be migrated only if both name and email were supplied; its migrated row is then stamped created at migration time and updated at the time of the legacy update |
| Layouts.MigratedUserReadsBack | apps/backend/scripts/migrate-to-single-table.ts:85-108 | reading a migrated user back by id through the single-table service gives the legacy name and email, its status or ACTIVE, and its timestamps or the migration's clock, whatever the clock of the read |

## Left out

- Uuid generation and the clock are parameters. The model takes one clock reading, `now`, per operation, and one for a whole migration run. Only `createUser` takes two, one per timestamp. The code reads the clock afresh at each of these places:
  - apps/backend/.build/src/services/UserService.js:26-27, :51-52 and :174-175, twice per user view;
  - apps/backend/.build/src/services/UserService.js:117 and :132-133, in `updateUser`;
  - apps/backend/src/services/DashboardService.ts:28 and :45, once for the default and once more in `updateStats`;
  - apps/backend/scripts/migrate-to-single-table.ts:90-91 (twice per user item), :129, :141 and :167 (once per per-user row).
- UserRepository.ViewOf: a defaulted createdAt equals a defaulted updatedAt only because the model shares one clock reading; the code reads the clock once for each.
- Migration.UserRow: likewise, a defaulted createdAt equals a defaulted updatedAt only under the shared reading, and every row of a run is stamped with the same time.
- LegacyDashboard.GetDashboardStats: the stored default equals the returned one only under the shared reading. In the code, `updateStats` re-stamps `lastUpdated` at its own clock reading, so the stored row can carry a later time than the row returned.
- Network I/O, logging and environment configuration are left out. The AWS clients are represented only by the `Backend` flag, which says whether a call is answered.
- A backend that fails partway through a multi-step operation is not modelled. In the counters a failure is decided once per operation, and in the migration once per pass: a pass either fails at its first call or completes.
- `ensureMainTable` (DescribeTable, CreateTable, `ResourceInUseException`, the two-second wait) is I/O. It is reduced to a flag saying whether it completed.
- The contents of the mock data are parameters: `seed` for users and `seedStats` for the dashboard.
- The GraphQL resolvers, schema, server, handler, client context and React UI are wiring and presentation, not data-access logic.
- `getDashboardStatsByUser` is declared but has no implementation in the sources, so it is not modelled.
- Concurrency is not modelled: resolvers running in parallel, and the non-atomic read-modify-write of the counters. Operations are sequential.
- The index is modelled as always up to date. DynamoDB keeps secondary indexes eventually consistent.
- Numbers are exact reals: floating-point rounding of `revenue` and of the counters is not modelled. `revenue` is only copied.
- Values are strings or numbers. Booleans, lists and nested maps do not occur in these tables.
- LegacyDashboard.IncrementUserCount, LegacyDashboard.DecrementUserCount: a counter holding a string is read as 0. JavaScript would concatenate it under `+`, and the model does not reproduce that.
- UserRepository.GetAllUsers, LegacyUsers.GetAllUsers: a single-table or legacy scan that DynamoDB paginates is modelled as returning every row. The services read only the first response.
- Migration.Run: only the users and dashboard passes and their order are modelled. What `ensureMainTable` itself creates is not modelled.
- Migration.Run: the scan responses of both passes (`userPages`, `dashboardPages`) are parameters. No contract ties them to `db.legacyUsers` or `db.legacyDashboard`, because what a paginated scan returns is up to DynamoDB. Only the point read of the `stats` row uses `db.legacyDashboard`. The row lemmas are therefore stated over the scanned items.
- Migration.UsersPassIdempotent: stated only when every legacy user has both timestamps. Otherwise each run stamps missing timestamps with its own clock.
- Migration.UserRow: requires the legacy shape, that is a string `id` and string `name` and `email` when present. The legacy services write only such items.

## Findings

| source | as written | input that shows it | evidently intended | confidence | as-written member | corrected member |
|---|---|---|---|---|---|---|
| apps/backend/.build/src/services/UserService.js:86 | the create condition is checked only against the item at the new `(USER#id, PROFILE)` key, so `attribute_not_exists(GSI1PK)` never sees other users' emails | user `a` is stored with ada@example.com; creating user `b` with ada@example.com succeeds, and two rows are indexed under `EMAIL#ada@example.com` | creating a user with an email already in use fails and changes nothing | high for the behaviour, medium for the intent; not executed | UserRepository.DuplicateEmailExample | UserRepository.CreateUserUniqueEmail |
| apps/backend/.build/src/services/UserService.js:106-125 | an email change sets `email` but not `GSI1PK`, so the index keeps the old email | create user `a` with a@example.com, then update its email to b@example.com: looking up b@example.com finds nothing and looking up a@example.com finds `a` | the index key follows the email, so lookup by the new email finds the user | high for the behaviour, medium for the intent; not executed | UserRepository.StaleIndexExample | UserRepository.UpdateUserReindexed |

`UserRepository.CreateUser` and `UserRepository.UpdateUser` model the code as
written. The corrected definitions are proved to keep each email indexed at
most once (`CreateUniqueKeepsEmailsUnique`) and every profile row indexed
under its own email (`UpdateReindexedKeepsIndexConsistent`).
