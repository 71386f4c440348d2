# grindboard core, modelled in Dafny

This project models the decision logic of grindboard, a small task
tracker with a FastAPI backend and a Svelte client, and proves properties
of that model. Each task carries a fractional position key. Tags are unique
per user, and renaming a tag onto another tag's name merges the two. A login
keeps a bounded set of opaque tokens. The parts modelled are these:

- `Text` (text.dfy): the Python string primitives the codecs rely on:
  `str.strip`, `str.split`, `int()`, `str(int)`, `bytes.hex`,
  `bytes.fromhex` and ASCII `str.lower`. Each comes with the round trip or
  characterisation the codecs need.
- `Security` and `AppSecurity` (security.dfy, app_security.dfy): the
  password-hash string `scheme$iterations$salt$hexdigest`, token claims and
  the `get_current_user` rejection cases. PBKDF2 is a function parameter
  `kdf`, and JWT decoding is a parameter `decode`. `AppSecurity` is the older
  twin, proved to agree with `Security` where the two agree.
- `UserLogin` and `UserService` (users.dfy, user_service.dfy): the login
  validators. A class `UserTable` holds the `users` table and implements
  login-or-register.
- `Records`, `Ordering` and `Store` (records.dfy, ordering.dfy, store.dfy):
  the rows, the position arithmetic, `ORDER BY position` as a stable sort, and
  the store shared by the two services. The store is a class `Db` with a task
  sequence, a tag map and a set of `(task_id, tag_id)` links.
- `TagService` (tag_service.dfy): the tag operations as methods on `Db`,
  with the merge loop and its invariant.
- `TaskService` and `AppTaskService` (task_service.dfy,
  app_task_service.dfy): the server task service over `Db`, and its tag-less
  twin over a class `TaskTable`.
- `LegacyCrud` (crud.dfy): the older CRUD layer as a class `LegacyDb`. It
  covers the tasks table and token retention on login: purge the expired
  tokens, trim to the newest `max - 1`, then add one.
- `Backfill` (backfill.dfy): the loop in the migration that adds
  `tasks.position`, with its per-user counter map.
- `ClientTasks` (tasks_store.dfy): the Svelte tasks store as a class
  `TasksStore`. It covers the filtered and sorted view, the tag diff, the
  optimistic toggle with revert, and the drag-and-drop state.

Conventions:

- Time (`now`, the instant a token is issued) is an integer number of
  seconds, passed in as a parameter.
- Random values (the salt, the token string) are parameters.
- A failed client request is a boolean parameter.
- Results that the source signals with `None`, `False` or an exception are
  `Option` and `Result` values.

## Model

| member | source | states |
|---|---|---|
| Text.TrimStart | app/models/users.py:42 | the result is a suffix of the input, everything dropped is whitespace, and it does not start with whitespace |
| Text.TrimEnd | app/models/users.py:42 | the result is a prefix of the input, everything dropped is whitespace, and it does not end with whitespace |
| Text.StripIsTrimmedSlice | app/models/users.py:42 | `strip()` returns a contiguous slice of the input that is flanked only by whitespace and has none at either end |
| Text.StripIdempotent | app/models/users.py:42 | stripping twice gives the same string as stripping once |
| Text.SplitJoin | server/app/core/security.py:31-36 | splitting fields joined by `$` on `$` gives the fields back when none contains `$` |
| Text.ParseIntOfDecimal | app/users/service.py:36 | `int(str(n)) == n` for every integer, negative ones included |
| Text.RunZero | server/app/core/security.py:95 | `int()` reads a decimal digit of any script: the zero found is that of a run of ten digits holding the code point |
| Text.DigitValue | server/app/core/security.py:95 | a digit's value is below ten |
| Text.ParseIntOfDigits | server/app/core/security.py:44 | an unsigned numeral with no whitespace around it reads as the value of its digits |
| Text.ParseIntOf200000In | server/app/core/security.py:44 | the iteration count written in the digits of any script reads as 200000 |
| Text.ParseIntOfArabicIndic | server/app/core/security.py:44 | `int()` reads the Arabic-Indic digits ٢٠٠٠٠٠ as 200000 |
| Text.ParseIntKeepsSeparators | server/app/core/security.py:95 | the separator U+001C is whitespace to `strip()` but makes `int()` raise |
| Text.StripNumeral | server/app/core/security.py:95 | the numeral `int()` reads has no ASCII whitespace and no non-ASCII whitespace at either end |
| Text.DigitsAppended | server/app/core/security.py:44 | appending a digit multiplies the value by ten and adds the digit |
| Text.DecimalOf200000 | server/app/core/security.py:17 | the iterations field written into every hash is the text `200000` |
| Text.FromHexOfToHex | server/app/core/security.py:24-31 | `bytes.fromhex(b.hex()) == b` |
| Text.ToHex | server/app/core/security.py:31 | `hex()` writes two lower-case hex digits per byte |
| Text.ToHexInjective | server/app/core/security.py:46 | two digests have equal hex strings exactly when they are equal |
| Text.AsciiLower | server/app/core/security.py:74 | the scheme is lowered letter by letter, ASCII capitals to small letters; this decides the comparison with `bearer` as Python's `lower()` does, since no non-ASCII letter lowers to one of `b`, `e`, `a`, `r` |
| Security.VerifyPassword | server/app/core/security.py:34-48 | false for a field count other than four, for a scheme other than `pbkdf2_sha256`, and for a non-integer iterations field or a non-hex salt; true exactly when, in addition, the iteration count is between 1 and 2³¹−1 and the stored digest equals the hex of `kdf` at the stored iterations and salt, whatever their values |
| Security.HashPasswordFields | server/app/core/security.py:16-31 | the hash splits into exactly `pbkdf2_sha256`, `200000`, 32 lower-case hex digits of salt, and the hex digest |
| Security.VerifyHashedPassword | server/app/core/security.py:23-48 | verifying a hash recomputes with the stored iterations and salt, so it accepts exactly a candidate with the same `kdf` digest |
| Security.VerifyHashRoundTrip | server/app/core/security.py:23-48 | `verify_password(p, hash_password(p))` holds |
| Security.CreateAccessToken | server/app/core/security.py:51-59 | the claims keep their keys plus `exp`; `exp = now + ttl`; a present `sub` is stringified; every other claim is copied unchanged |
| Security.JoseDecode | server/app/core/security.py:82-86 | `jwt.decode` fails exactly where the signature check fails or a present `sub` is not a string, and otherwise gives the decoded payload |
| Security.GetCurrentUser | server/app/core/security.py:68-107 | missing credentials or a non-bearer scheme, an undecodable token or a non-string `sub`, an absent `sub`, and an unknown user each give their own 401; a `sub` that `int()` rejects is an invalid token; an id outside the SQLite integer range ends in a 500 from the uncaught `OverflowError`; otherwise the outcome is exactly the user `int(sub)` names |
| Security.BearerSchemeIgnoresCase | server/app/core/security.py:74 | any spelling of the scheme whose ASCII lower case is `bearer` behaves as `bearer` |
| AppSecurity.VerifyPassword | app/security.py:33-44 | false for a field count other than four, a wrong scheme, a non-integer iterations field or a non-hex salt; true exactly when the stored digest matches, as for the server copy |
| AppSecurity.VerifyAgreesWithServer | app/security.py:33-44 | the older `verify_password` (iterations parsed before the salt) returns what the server one returns on every input |
| AppSecurity.VerifyHashRoundTrip | app/security.py:25-42 | the older copy verifies every hash `hash_password` makes |
| AppSecurity.CreateAccessToken | app/security.py:47-50 | the claims plus `exp = now + ttl`; every other claim, `sub` included, is left as given |
| AppSecurity.CreateAccessTokenAgreesOnStringSubject | app/security.py:47-50 | the two token builders agree when `sub` is absent or already a string |
| UserLogin.NormalizeUsername | app/models/users.py:39-47 | accepts exactly the inputs whose stripped form has 1 to 150 characters and returns that stripped form; otherwise it gives the empty-name or the too-long error |
| UserLogin.ValidatePassword | app/models/users.py:49-54 | accepts exactly the passwords of at least 6 characters and returns them unchanged |
| UserLogin.AcceptedUsernameIsTrimmedInput | app/models/users.py:42-47 | an accepted username is the input with its leading and trailing whitespace removed, and has 1 to 150 characters |
| UserLogin.WhitespaceOnlyUsernameRejected | app/models/users.py:43-44 | an input made only of whitespace is rejected as empty |
| UserLogin.NormalizeUsernameIdempotent | app/models/users.py:42-47 | an accepted username normalises to itself |
| UserService.UserTable.FindByUsername | app/users/service.py:13-15 | finds a user exactly when one has that name, and returns that stored row |
| UserService.UserTable.CreateUser | app/users/service.py:28-33 | adds one user with a fresh id, the name and `hash_password(password)`, and nothing else |
| UserService.UserTable.RegisterOrAuthenticate | app/users/service.py:17-26 | an unknown name registers a new user; a known name with a verifying password returns that user unchanged; otherwise 401 `Invalid credentials` with the table unchanged |
| UserService.IssueToken | app/users/service.py:35-36 | the claims are exactly `sub = str(user.id)` and `exp` |
| UserService.IssuedTokenAuthenticates | app/users/service.py:35-36 | a token carrying `issue_token`'s claims makes `get_current_user` return that user while the user exists, its id being an SQLite integer |
| UserService.RegisteredPasswordAuthenticates | app/users/service.py:20-21 | the password just registered verifies against the stored hash |
| Records.ApplyUpdate | server/app/tasks/service.py:48-50 | only the supplied fields change |
| Ordering.OrderByPosition | server/app/tasks/service.py:16 | `ORDER BY position` gives a sorted permutation of its input |
| Ordering.SortedArrangementUnique | server/app/tasks/service.py:16 | with distinct positions, there is exactly one sorted arrangement of a set of tasks |
| Ordering.Listing | server/app/tasks/service.py:12-20 | the user's rows, sorted by position, as a permutation of exactly those rows |
| Ordering.MaxPosition | server/app/tasks/service.py:27-28 | `max(position)` is `None` for no rows, and otherwise one of the positions and at least every other |
| Ordering.NewPosition | server/app/tasks/service.py:29 | `(max or 0.0) + 1.0` |
| Ordering.NewPositionAfterAll | server/app/tasks/service.py:27-29 | a new task goes strictly after every task of the user, at 1.0 when there is none |
| Ordering.FindById | server/app/tasks/service.py:107-111 | the first index holding the id, or none when no task has it |
| Ordering.ScanForId | server/app/tasks/service.py:107-111 | the scan's loop finds the same index as `FindById` |
| Ordering.MovePosition | server/app/tasks/service.py:102-118 | there is no position exactly when `after_id` is given and not among the user's tasks |
| Ordering.ComputeMovePosition | server/app/tasks/service.py:99-118 | the first task's position − 1.0, or 0.0 for an empty list; otherwise the midpoint with the successor, or the position + 1.0 for the last task; this equals `MovePosition` |
| Ordering.TopPositionBelowAll | server/app/tasks/service.py:102-105 | moving to the top gives a position strictly below every task in the listing |
| Ordering.AfterPositionBetween | server/app/tasks/service.py:111-118 | the position after Y lies strictly between Y and its successor, or above Y when Y is last |
| Ordering.MovedImmediatelyAfter | server/app/tasks/service.py:111-118 | with distinct positions, no other task lies between Y and the moved task |
| Ordering.MoveAfterReorders | server/app/tasks/service.py:111-120 | with distinct positions, re-sorting after a move puts the task right after Y and keeps the others in their order |
| Ordering.MoveToTopReorders | server/app/tasks/service.py:102-105 | with distinct positions, re-sorting after a move to the top puts the task first and keeps the others in their order |
| Ordering.MoveAfterSelfKeepsOrder | server/app/tasks/service.py:107-118 | moving a task after itself keeps the listing's order |
| Ordering.SetPosition | server/app/tasks/service.py:114-120 | only the moved row changes, and only its position |
| Ordering.UserRowsAfterRewrite | server/app/tasks/service.py:114-120 | rewriting one row of a user replaces that row, and only it, among the user's rows |
| Ordering.ListingAfterMoveToTop | server/app/tasks/service.py:99-105 | the user's next listing after a move to the top is the moved task, then the old listing without it |
| Ordering.ListingAfterMoveAfter | server/app/tasks/service.py:107-120 | the user's next listing after moving behind another task Y is the old listing with the task moved right after Y |
| Ordering.ListingAfterMoveAfterSelf | server/app/tasks/service.py:107-120 | the user's next listing after moving a task behind itself has the same order |
| Store.FindOwned | server/app/tasks/service.py:40-47 | finds the row exactly when the user has a task with that id |
| Store.FindTag | app/tags/service.py:21-23 | the user's tag of that name, or a proof that there is none |
| Store.FindOtherTag | app/tags/service.py:43-46 | another tag of the user with that name, or a proof that there is none |
| TagService.MergeTags | app/tags/service.py:155-178 | after the loop, the links are those of other tags plus each task of the old tag linked to the new tag; the old tag is gone |
| TagService.MergeUnitesTaskSets | app/tags/service.py:158-177 | after a merge, the surviving tag's tasks are the union of both tags' tasks; the old tag has none; every other tag keeps its tasks |
| TagService.MergeKeepsOtherLinks | app/tags/service.py:163-174 | a merge touches no link of any third tag |
| TagService.PartialMergeStep | app/tags/service.py:161-174 | one iteration adds the link to the new tag if missing and drops the old link |
| TagService.Create | app/tags/service.py:17-32 | returns the existing `(user, name)` tag and adds nothing; otherwise adds exactly one tag |
| TagService.Rename | app/tags/service.py:34-57 | for a tag the user does not own: `None`, and nothing changes; with no other tag of the new name: the same id with the new name; otherwise a merge into the other tag, which is returned |
| TagService.RenameToOwnNameIsNoOp | app/tags/service.py:43-57 | renaming a tag to its own name finds no other tag and leaves the tags as they were |
| TagService.Delete | app/tags/service.py:59-69 | `false` with nothing changed for a tag the user does not own; otherwise the tag and its links are removed |
| TagService.AddTagToTask | app/tags/service.py:71-103 | `None` with no change unless both task and tag are the user's; otherwise the tag, and the link is present (added once) |
| TagService.RemoveTagFromTask | app/tags/service.py:105-131 | `false` with no change on an ownership failure; otherwise `true`, and the link is absent |
| TagService.CreateAndAddToTask | app/tags/service.py:133-153 | `None` for a foreign task; otherwise the user's tag of that name (reused or created) linked to the task |
| TaskService.ToRead | server/app/tasks/service.py:125-138 | copies the fields and lists exactly the loaded tags that have an id |
| TaskService.ReadListsLinkedTags | server/app/tasks/service.py:133-137 | a read task lists exactly the tags linked to it, with their names |
| TaskService.List | server/app/tasks/service.py:12-20 | the user's tasks only, in ascending position order |
| TaskService.FreshTaskHasNoTags | server/app/tasks/service.py:34-35 | a task created with a fresh id is read with no tags |
| TaskService.Create | server/app/tasks/service.py:22-35 | appends one task of the user at `(max or 0.0) + 1.0`, uncompleted, with a fresh id |
| TaskService.Update | server/app/tasks/service.py:37-54 | `None` with no change for a task the user does not own; otherwise only the supplied fields of that row change |
| TaskService.ToggleComplete | server/app/tasks/service.py:56-69 | `None` with no change for a task the user does not own; otherwise only that row's `completed` is negated |
| TaskService.ToggleTwiceRestores | server/app/tasks/service.py:65 | toggling twice restores the rows |
| TaskService.Delete | server/app/tasks/service.py:71-82 | `None` with no change for a task the user does not own; otherwise that row and its links are removed and its read form returned |
| TaskService.MoveTask | server/app/tasks/service.py:84-123 | `None` with no change when the task is not the user's or `after_id` is unknown; otherwise only that row's position changes, to `MovePosition` of the listing |
| AppTaskService.TaskTable.List | app/tasks/service.py:11-14 | the user's rows only, sorted by position |
| AppTaskService.TaskTable.Create | app/tasks/service.py:16-29 | appends one task of the user at `(max or 0.0) + 1.0` with a fresh id |
| AppTaskService.TaskTable.Update | app/tasks/service.py:31-44 | `None` with no change for a task the user does not own; otherwise only the supplied fields change |
| AppTaskService.TaskTable.ToggleComplete | app/tasks/service.py:46-55 | `None` with no change for a task the user does not own; otherwise `completed` is negated |
| AppTaskService.TaskTable.Delete | app/tasks/service.py:57-64 | `None` with no change for a task the user does not own; otherwise exactly that row is removed and returned |
| AppTaskService.TaskTable.MoveTask | app/tasks/service.py:66-101 | `None` with no change when the task is not the user's or `after_id` is unknown; otherwise only its position is written |
| LegacyCrud.FindTask | app/database/crud.py:37-40 | the first row with the id, and that user's when a user is given |
| LegacyCrud.LegacyDb.GetTasks | app/database/crud.py:11-16 | all rows without a user, and exactly the user's rows with one |
| LegacyCrud.ApplyLegacyUpdate | app/database/crud.py:44-46 | only the supplied fields change; an explicit `null` description clears the description |
| LegacyCrud.LegacyDb.UpdateTask | app/database/crud.py:31-48 | `None` with no change when the id is missing or not the user's; an explicit `null` title fails the commit on `title`'s `NOT NULL` and changes nothing; otherwise only the supplied fields change, and a `null` description clears it |
| LegacyCrud.LegacyDb.CompleteTask | app/database/crud.py:51-67 | `None` with no change when the id is missing or not the user's; otherwise `completed` flips |
| LegacyCrud.LegacyDb.DeleteTask | app/database/crud.py:70-80 | `None` with no change when the id is missing or not the user's; otherwise exactly that row is removed and returned |
| LegacyCrud.LegacyDb.CleanupExpiredTokens | app/database/crud.py:83-90 | removes exactly the tokens with a non-null `expires_at < now`, only the user's when a user is given |
| LegacyCrud.LegacyDb.DeleteTokens | app/database/crud.py:106-107 | the deletion loop removes exactly the tokens with the victims' ids |
| LegacyCrud.LegacyDb.TrimTokens | app/database/crud.py:101-118 | deletes all of the user's tokens for limit 1, otherwise those past the `limit - 1` highest ids |
| LegacyCrud.LegacyDb.CreateToken | app/database/crud.py:98-130 | purge, trim with `max(1, setting)`, then add a token of the user with an id above every current token's and `expires_at = issued + ttl` |
| LegacyCrud.OrderByIdDesc | app/database/crud.py:113 | `ORDER BY id DESC` gives a descending permutation of its input |
| LegacyCrud.EffectiveLimitAtLeastOne | app/database/crud.py:101 | the effective limit is never below 1, and is the setting itself when that is at least 1 |
| LegacyCrud.CreateTokenLeavesNoExpired | app/database/crud.py:83-99 | after `create_token`, none of the user's tokens has expired at `now`, provided the new token's expiry (issue instant plus lifetime) is not before the purge's `now` |
| LegacyCrud.LimitOneLeavesOnlyNew | app/database/crud.py:102-107 | with limit 1, the new token is the user's only token afterwards |
| LegacyCrud.CreateTokenBound | app/database/crud.py:101-128 | the user holds at most `limit` tokens afterwards |
| LegacyCrud.SurvivorsAreNewest | app/database/crud.py:108-118 | with limit above 1, every surviving prior token of the user has a higher id than every deleted one |
| LegacyCrud.OtherUsersUntouched | app/database/crud.py:88-89 | another user's tokens are the same before and after |
| Backfill.BackfillPositions | server/alembic/versions/c6387905b36d_add_position_column_to_tasks.py:31-42 | every row is assigned exactly once, and row i gets the number of rows of its user before it |
| Backfill.AtZeroIffLowestId | server/alembic/versions/c6387905b36d_add_position_column_to_tasks.py:37 | a task gets 0.0 exactly when it has its user's lowest id |
| Backfill.PositionIsIndexAmongOwnRows | server/alembic/versions/c6387905b36d_add_position_column_to_tasks.py:32-42 | the k-th task of a user by id gets k, whatever the other users' rows are |
| Backfill.PositionsIncreaseWithId | server/alembic/versions/c6387905b36d_add_position_column_to_tasks.py:32-42 | within one user, a higher id gets a strictly higher position |
| ClientTasks.WithCompletionIsSubsequence | web/src/lib/stores/tasks.svelte.ts:305-311 | the completion filter keeps the stored order |
| ClientTasks.SortedView | web/src/lib/stores/tasks.svelte.ts:301-328 | exactly the tasks whose `completed` equals the flag, as a permutation; under every option but the alphabetical ones, in stored order |
| ClientTasks.TasksStore.GetSortedTasks | web/src/lib/stores/tasks.svelte.ts:301-328 | the same view of the store, which it reads without changing |
| ClientTasks.Exclude | web/src/lib/stores/tasks.svelte.ts:150 | the ids of the first list that are not in the second |
| ClientTasks.TagDiffReachesSelection | web/src/lib/stores/tasks.svelte.ts:146-167 | removals avoid the selection, additions avoid the current tags, and current − remove + add is the selection |
| ClientTasks.FlipTwice | web/src/lib/stores/tasks.svelte.ts:184-215 | negating a task's `completed` twice restores the list |
| ClientTasks.TasksStore.ToggleTask | web/src/lib/stores/tasks.svelte.ts:180-219 | a failed request leaves the tasks as they were and sets the error; a successful one negates the task found by id |
| ClientTasks.TasksStore.SetDraggedTask | web/src/lib/stores/tasks.svelte.ts:269-271 | sets only the dragged id |
| ClientTasks.TasksStore.SetDragOverTask | web/src/lib/stores/tasks.svelte.ts:273-275 | sets only the drag-over id |
| ClientTasks.TasksStore.HandleDrop | web/src/lib/stores/tasks.svelte.ts:277-283 | asks for a move exactly when both ids are truthy, and always clears both |
| ClientTasks.TasksStore.ClearError | web/src/lib/stores/tasks.svelte.ts:286-288 | clears only the error |
| ClientTasks.TasksStore.ToggleShowCompleted | web/src/lib/stores/tasks.svelte.ts:291-293 | negates only the flag |
| ClientTasks.TasksStore.SetSortBy | web/src/lib/stores/tasks.svelte.ts:296-298 | sets exactly `sortBy` |

## Left out

- The network:
  - the client's `fetchTasks`, `createTask`, `updateTask`, `deleteTask` and `moveTask` requests are left out;
  - `HandleDrop` returns the move it would request;
  - `ToggleTask` takes the request's failure as a parameter;
  - the refresh after a tag edit is left out.
- `localeCompare` is a parameter `titleCompare`.
- ClientTasks.SortedView: for the alphabetical options it states a permutation of the filtered tasks, not that they end up ordered by title, because the comparator is abstract.
- PBKDF2-HMAC-SHA256, `secrets.token_hex`, `secrets.token_urlsafe` and JWT signing and decoding are parameters: `kdf`, the salt bytes, the token value, and `decode`.
- Security.VerifyPassword:
  - UTF-8 encoding of the password is folded into `kdf`;
  - a `pbkdf2_hmac` failure for an iteration count below 1 or above 2³¹−1 is modelled as `false`;
  - `compare_digest` on strings is equality; its `TypeError` for non-ASCII input is caught and also gives `false`.
- Time:
  - `datetime.now` is an integer number of seconds passed in;
  - `CreateToken` takes the purge's `now` and the issue instant separately, since the source reads the clock twice;
  - time zones and sub-second precision are left out.
- LegacyCrud.LegacyDb.CreateToken: new token ids come from a counter that never reuses a value, where SQLite assigns the highest current rowid plus one and can hand out a deleted token's id again. Only "above every current id" is relied on.
- LegacyCrud.LegacyDb.CreateToken, LegacyCrud.CreateTokenBound, LegacyCrud.SurvivorsAreNewest: `Settings` (app/config.py:7-22) declares no `max_tokens_per_user`, so `getattr(settings, "max_tokens_per_user", 1)` is always 1 under the shipped configuration. Limit 1 (LegacyCrud.LimitOneLeavesOnlyNew) is the live case. `maxTokensSetting` above 1, and the trim branch these lemmas cover, model a setting that configuration cannot supply.
- LegacyCrud.LegacyDb.CreateToken does not model the unique constraint on token values: a duplicate random value would make the commit raise.
- The crud functions `create_task`, `create_user` and `get_user_by_username` are left out: they are plain inserts and lookups called by routes outside this model.
- The tag service's `list` and the HTTP routers are left out. Their only logic maps `None`/`False` to 404.
- Records.ApplyUpdate: a server update holds only the supplied non-null fields. `title` and `description` are both non-nullable `str` columns (server/app/models/tasks.py:14-15), so an explicit `null` for either fails at commit; that failure is not modelled.
- Positions are `real`. Float rounding, and the duplicate or out-of-order keys that repeated midpoints can produce, are not captured.
- Sorting:
  - `ORDER BY position` is a stable sort over table order, and ties are kept in storage order, which the database does not promise;
  - `get_tasks` (app/database/crud.py:11-16) has no `ORDER BY`, so the database promises no row order; LegacyCrud.OwnedBy and LegacyCrud.LegacyDb.GetTasks return the rows in storage order;
  - the listing lemmas assume distinct positions.
- Concurrency and transaction isolation are left out. Every operation runs alone on the current state.
- Ordering.ListingAfterMoveAfter and its companions need distinct positions in the user's listing. Without them, the source's midpoint can coincide with a neighbour.
- Sessions, commits, refreshes and lazy loading are plain state updates. A deleted row's read form is taken from the state before the delete, matching `expire_on_commit=False`.
- Deleting a task or a tag removes its link rows. The ORM deletes the secondary table's rows of a many-to-many relationship on `session.delete`; `task_tags` itself declares no `ON DELETE`.
- Text.ParseInt, Security.VerifyPassword, AppSecurity.VerifyPassword, Security.GetCurrentUser: Python's cap of 4300 digits on `int()` of a string is not modelled, so a numeral longer than that parses here where Python raises `ValueError`. The decimal digits are those of Unicode 15.0 (Python 3.12 and 3.13); later Unicode versions add scripts.
- Security.GetCurrentUser: the decoder parameter `decode` may return a payload with a `sub` of any JSON kind. python-jose's default `verify_sub` check then rejects every `sub` that is present and not a string, `null` included, and the `except (JWTError, ValueError)` turns that into "Invalid or expired token". This check is modelled as `JoseDecode`. So "Invalid token subject" comes only from an absent `sub`.
- Security.JoseDecode: `JInt` stands for every non-string, non-null JSON value. The other claim checks of `jwt.decode` (expiry, the algorithm list) belong to `decode`.
- The task and tag services do not model the SQLite integer range. A `task_id` or `tag_id` path parameter outside [−2⁶³, 2⁶³) makes the lookup's query raise an uncaught `OverflowError`, a 500, at server/app/tasks/service.py:42,59,74,92 and app/tags/service.py:36,61,76,83. The model answers such an id as it answers any unknown id.
- Strings are sequences of Unicode scalar values. A Python `str` can also hold a lone surrogate, on which `encode("utf-8")` raises; such strings are not modelled.
- `TaskRead.tags` is a set, while `_to_read` returns a list in load order. No tag appears twice in it, since the links are a set of pairs, so only the order is lost.
