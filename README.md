# RBAC backend: role and user controllers in Dafny

This project models the two request controllers of a small role-based access
control backend. One controller manages roles, each a named list of access
modules. The other manages users: registration, login, search, updates, soft
delete, bulk updates and the per-request permission check.

The stores are in-memory tables from id to record:

- `RoleController.RoleStore` holds `roles: map<Id, Role>`.
- `UserController.UserStore` holds `users: map<Id, User>`.

Each store has a counter for fresh ids. Handlers that write are methods of
the stores, and each states the whole new table and the reply. Handlers that
only read are functions over the tables. Each handler returns a
`Reply(code, msg, data)`: the HTTP status, a message kind (carrying the data
that the source builds the message text from) and the optional payload.

Three external pieces stay opaque:

- The password hash and its check are the parameters `hash` and `verify`.
- Case folding is the parameter `lower`. `Common.AsciiLower` is one instance,
  used in a worked example.
- The login token is only its claims, `Claims(userId, email, roleId)`.

Modules:

- `Common`: shared types.
- `Seqs`: the JavaScript `filter`/`includes` selections, and the array
  updates `$addToSet` with `$each` and `$pull` with `$in`.
- `RoleController`.
- `UserModel`: the user record and the unique email index.
- `UserBulk`: the loop and the ordered bulk write of `updateMultipleUsers`.
- `UserController`.

Behaviour of the code that a reader might not expect (the model follows the
code):

- The role-name check covers every role, soft-deleted ones included, and so
  does the check when a role is renamed. A soft delete alone does not free a
  name, but `updateRole` finds soft-deleted roles too, so renaming a deleted
  role frees its old name.
- `getRoleById` and `getUserById` return soft-deleted records.
- `createRole` only checks that `accessModule` is an array. It stores the
  array as given, repeats included.
- Adding modules follows `$addToSet`. Requested modules that repeat are
  stored once, in first-occurrence order, after the existing ones.
- When the credentials are right but the user's role no longer exists,
  login reads the name of a role that is not there, which throws, and the
  handler answers 500.
- `updateUser` checks the email before the id. An unknown id whose requested
  email belongs to another user gets 400, not 404.

## Model

| member | source | states |
|---|---|---|
| Seqs.Within | src/controller/role.js:141-143 | the requested modules already held: exactly the members of both lists, never longer than the request |
| Seqs.Without | src/controller/role.js:188-190 | the elements of the first list absent from the second: exactly those members; a list without repeats stays without repeats |
| Seqs.Dedup | src/controller/role.js:154 | the list with repeats removed: no repeats, same members |
| Seqs.AddToSet | src/controller/role.js:152-156 | `$addToSet` with `$each`: the old array is kept as a prefix, and the members are the old ones plus the items |
| Seqs.WithinConcat | src/controller/role.js:141-149 | duplicates are listed in request order: the filter distributes over concatenation |
| Seqs.WithoutConcat | src/controller/role.js:200-204 | the filter keeps order: it distributes over concatenation |
| Seqs.WithoutKeepsAll | src/controller/role.js:188-191 | nothing is filtered out exactly when no element of the list is in the other |
| Seqs.AddToSetAppends | src/controller/role.js:152-156 | `$addToSet` appends, after the old array, the deduplicated items it does not yet hold |
| Seqs.AddToSetOfNew | src/controller/role.js:141-156 | when no item is held yet, `$addToSet` appends exactly the deduplicated items |
| Seqs.NoDupAppend | src/controller/role.js:141-156 | appending new deduplicated modules to a list without repeats leaves no repeats |
| RoleController.GetAllRoles | src/controller/role.js:34-45 | 200 with exactly the roles whose `isDeleted` is false, records unchanged |
| RoleController.DeletedNameStaysTaken | src/controller/role.js:12-18 | `NameTaken` encodes the name lookups `findOne({ roleName })` and, with an excluded id, `findOne({ roleName, _id: { $ne: id } })` (lines 77-82), neither filtering on `isDeleted`: soft-deleting a role leaves every such lookup answering as before |
| RoleController.RenameFreesName | src/controller/role.js:84-88 | renaming a role, soft-deleted or not, frees its old name for a new role |
| RoleController.WriteKeepsUniqueNames | src/controller/role.js:12-18 | writing a role whose name no other role holds keeps role names unique; `RoleStore.Valid` carries that invariant, which `CreateRole` and `UpdateRole` preserve |
| RoleController.GetRoleById | src/controller/role.js:47-63 | 200 with the role whatever its `isDeleted`, exactly when the id exists; otherwise 400 ROLE_NOT_FOUND |
| RoleController.SoftDeleted | src/controller/role.js:105-109 | soft delete: same ids, the target gets `isDeleted` and nothing else, other roles unchanged |
| RoleController.SoftDeleteIdempotent | src/controller/role.js:102-121 | deleting a role twice leaves the same table as deleting it once |
| RoleController.SoftDeletedRoleHidden | src/controller/role.js:34-63 | after a soft delete the role leaves the listing, the listing is otherwise the same, and the role is still fetched by id |
| RoleController.DuplicateModules | src/controller/role.js:141-150 | the batch is rejected, with these modules listed, exactly when some requested module is already held (exact match) |
| RoleController.MissingModules | src/controller/role.js:188-198 | the requested modules the role lacks; they make up the whole request exactly when none of the requested modules is held |
| RoleController.AddedModules | src/controller/role.js:141-156 | with no duplicates, the new list is the old list followed by the deduplicated new modules, and no repeats appear |
| RoleController.RemovedModules | src/controller/role.js:188-204 | `$pull` leaves exactly the modules not requested, requested modules the role lacks change nothing, a list without repeats stays without repeats, and when some requested module is held (the only case that reaches the pull) the list gets strictly shorter |
| RoleController.WithoutRelevant | src/controller/role.js:200-204 | pulling the requested modules is the same as pulling only those the role holds |
| RoleController.RoleStore.CreateRole | src/controller/role.js:4-32 | keeps `Valid` (fresh ids, role names unique); 400 INAVALIDDATA if the name is falsy or the modules are not an array; 400 if any role (deleted or not) has the name; otherwise exactly one new role under a fresh id, with `isActive` true and `isDeleted` false, and the name is then taken |
| RoleController.RoleStore.UpdateRole | src/controller/role.js:65-100 | keeps `Valid` (role names stay unique); 400 for an absent id or a name held by another role, table unchanged; otherwise only that role's name, modules and `isActive` change |
| RoleController.RoleStore.DeleteRole | src/controller/role.js:102-121 | 400 for an absent id; otherwise the table becomes the soft delete of that role |
| RoleController.RoleStore.AddModules | src/controller/role.js:123-170 | 400 for a missing or empty list; 404 for an absent role; 400 listing every duplicate, role unchanged; otherwise only the module list changes, to old list plus deduplicated new modules |
| RoleController.RoleStore.RemoveModules | src/controller/role.js:172-220 | 400 for a missing or empty list; 404 for an absent role; 400 exactly when none of the requested modules is held; otherwise only the module list changes, to the old list without the requested modules, which is strictly shorter |
| UserModel.WriteKeepsUniqueEmails | src/models/user.js:15-20 | writing a record whose email no other user holds keeps the unique email index satisfied |
| UserModel.DeletedEmailStaysTaken | src/controller/user.js:10 | `EmailTaken` encodes the email lookups `findOne({ email })` (lines 10 and 40) and, with an excluded id, the one of `updateUser` (line 149), none filtering on `isDeleted`: soft-deleting a user leaves every such lookup answering as before |
| UserBulk.SplitBatch | src/controller/user.js:331-361 | the loop over the batch: it throws exactly when some entry has a truthy id and a null `updateData`; otherwise its three arrays are the specified partition |
| UserBulk.Keys | src/controller/user.js:347 | `Object.keys` of the update: one key per field, and a text is among the keys exactly when some field has it as its name |
| UserBulk.Place | src/controller/user.js:336-360 | one turn of the loop: it throws exactly when the entry has a truthy id and a null `updateData`; otherwise the entry is appended to exactly one of the three arrays, the others unchanged, and an entry with a falsy id goes to the invalid ids |
| UserBulk.PlaceRule | src/controller/user.js:338-360 | an entry with a truthy id: a non-object or an empty object goes to the invalid ids; an object with a key outside the allow-list goes to the invalid fields, reported under its id with exactly the keys outside the allow-list; any other object becomes one bulk operation setting exactly its own fields on its id |
| UserBulk.Split | src/controller/user.js:335-361 | the three arrays after the whole loop; without a throw they hold as many entries as the batch, so every entry lands in exactly one of them |
| UserBulk.SplitConcat | src/controller/user.js:335-361 | each entry is placed on its own and the three groups keep the batch order |
| UserBulk.SplitThrows | src/controller/user.js:338-347 | the partition fails exactly when some entry throws |
| UserBulk.SplitGroupsSound | src/controller/user.js:330-360 | each bulk operation sets a non-empty set of allowed fields; each invalid-fields report has at least one key, all outside the allow-list |
| UserBulk.Assign | src/controller/user.js:355-359 | a `$set` from a batch entry never changes password, role or deletion flag |
| UserBulk.AssignKeeps | src/controller/user.js:358 | `$set` of an update leaves every path that none of its keys names as it was |
| UserBulk.AssignSets | src/controller/user.js:358 | `$set` of an update with distinct keys leaves every listed path holding its cast value: writing any of its fields again changes nothing |
| UserBulk.CastText | src/models/user.js:5-20 | Mongoose string casting: text is stored as is, and a boolean becomes text that casts back to the same boolean |
| UserBulk.CastFlag | src/models/user.js:30-33 | Mongoose boolean casting: true exactly for true, "true", "1" and "yes"; false exactly for false, "false", "0" and "no"; anything else does not cast |
| UserBulk.RunOps | src/controller/user.js:374 | the ordered operations after casting: the set of users is kept, at most one modification per operation, and operations whose ids all match nothing change nothing and succeed |
| UserBulk.BulkWrite | src/controller/user.js:374 | the ordered `bulkWrite`: when some operation fails to cast (`CastsOk`, the `isActive` values), nothing is written and the write fails; when all cast, the operations run (`RunOps`); the set of users is kept and at most one modification per operation is counted |
| UserBulk.RunOpsConcat | src/controller/user.js:374 | ordered execution: after a part that finishes, the rest runs on what it left and the counts add up; after a part that stops at a duplicate email, nothing more runs and what ran before stays written |
| UserBulk.RunOpsWrites | src/controller/user.js:355-359 | a bulk write that succeeds leaves each targeted user holding the cast values of the last operation on it, for every field of that operation |
| UserBulk.RunOpsOne | src/controller/user.js:374 | one operation of the ordered write: an absent id matches nothing and succeeds; on a present id it fails exactly when its `$set` would give the user an email another user holds, otherwise it writes the updated record, and it counts one modification exactly when it succeeds and changes the record |
| UserBulk.RunOpsStopsAtDuplicate | src/controller/user.js:374 | the write stops at the first operation that would duplicate an email: it fails, and the operations after it do not run |
| UserBulk.RunOpsOkWithoutEmail | src/controller/user.js:374 | a bulk write none of whose operations sets `email` cannot break the unique index, so it succeeds |
| UserBulk.RunOpsFrame | src/controller/user.js:374 | a bulk write, finished or stopped, keeps emails unique and the set of users, changes no password, role or deletion flag, and leaves untargeted users as they were |
| UserBulk.BulkWriteFrame | src/controller/user.js:374 | the same for the whole ordered bulk write, including the cast check that runs before it |
| UserController.Login | src/controller/user.js:36-80 | 401 INVALID_CREDENCIAL exactly when no user (deleted or not) has the email; 403 exactly when that user is inactive; 401 INVALID_PASSWORD exactly when active and the password fails; 500 exactly when all checks pass but the role is gone; 200 exactly when all checks pass and the role exists, with claims `{userId, email, roleId}` and the summary's name, email and role name taken from that user |
| UserController.InactiveBeforePassword | src/controller/user.js:47-58 | an inactive account gets 403 whatever the password and verifier: the password is not checked first |
| UserController.LoginIgnoresDeletion | src/controller/user.js:40 | soft-deleting a user does not change what login answers |
| UserController.RegisterThenLogin | src/controller/user.js:7-72 | after registering with a new email, logging in with the same password gives 200 with the new user's claims, given that the verifier accepts the hash and the role exists |
| UserController.LowerAll | src/controller/user.js:230-232 | the role's modules folded, one per module: a text is among them exactly when some module folds to it |
| UserController.CheckUserAccess | src/controller/user.js:203-250 | 400 for a missing, non-string or empty module; then 404 for an absent user; then 404 for an absent role; otherwise 200 exactly when some module of the role matches case-insensitively, else 403 |
| UserController.AccessIgnoresFlags | src/controller/user.js:215-234 | the access decision does not depend on `isActive` or `isDeleted` of any user or role |
| UserController.AccessExample | src/controller/user.js:229-244 | a role granting "Billing" allows "billing" and denies "invoice" |
| UserController.GetAllUsers | src/controller/user.js:82-119 | exactly the non-deleted users matching the case-insensitive prefix search on first name, last name or email (no filter for a falsy search); 404 when there are none, 200 otherwise |
| UserController.SearchIsCaseInsensitive | src/controller/user.js:87-94 | two search strings that fold to the same text find the same users |
| UserController.FoundByEmailPrefix | src/controller/user.js:86-94 | `Matches` encodes the filter `new RegExp("^" + search, "i")` on first name, last name or email, as a literal prefix after folding: under ASCII folding, a user is found by any non-empty prefix of their email |
| UserController.GetUserById | src/controller/user.js:121-142 | 200 with the user whatever its `isDeleted`, exactly when the id exists; otherwise 400 |
| UserController.UnknownIds | src/controller/user.js:282-285 | the requested ids no user has, exactly those, taken from the request |
| UserController.UnknownIdsConcat | src/controller/user.js:285-292 | the absent ids are reported in request order |
| UserController.RenameAll | src/controller/user.js:295-298 | every listed user gets the one name field set to the value; nothing else of any user changes |
| UserController.NoChangeIffSameTable | src/controller/user.js:300-310 | the changed count is zero exactly when the update leaves the table as it was |
| UserController.RenameAllKeepsUniqueEmails | src/controller/user.js:295-298 | a name update keeps emails unique |
| UserController.UserStore.Register | src/controller/user.js:7-34 | 400 if any user, deleted or not, has the email, table unchanged; otherwise one new user under a fresh id storing `hash(password)` with `isActive` true and `isDeleted` false |
| UserController.UserStore.UpdateUser | src/controller/user.js:144-180 | 400 when another user holds the email; 404 when the id is absent; both leave the table unchanged; otherwise only the five given fields of that user change |
| UserController.UserStore.DeleteUser | src/controller/user.js:182-201 | 400 for an absent id; otherwise only that user's `isDeleted` is set |
| UserController.UserStore.UpdateManyUsers | src/controller/user.js:252-318 | 400 for missing ids, for neither name and for both names; 404 listing the absent ids in order, table unchanged; otherwise every listed user gets the one field, 404 exactly when nothing changed |
| UserController.UserStore.UpdateMultipleUsers | src/controller/user.js:320-387 | 400 for a missing batch; 500 when an entry throws; 400 with both reports and the table unchanged when no bulk operation remains; otherwise the ordered bulk write, which touches only listed users |

## Left out

- Token signing, verification and expiry, and the auth middleware: a token is only its claims. The authenticated user id is a parameter of `CheckUserAccess`.
- The token's `roleId` claim is the bare role id. Login populates `roleId` before signing, so the signed claim really holds the populated role (its id and name). `Claims` abstracts that object to its id.
- Password hashing is out: `hash` and `verify` are parameters with no properties assumed.
- JavaScript `toLowerCase` is not modelled: case folding is the parameter `lower`. `AsciiLower` is only one instance of it.
- The request validation of the register and create-role routes, which uses a validation library, is not modelled, along with routing, server start-up and the database connection.
- Timestamps, the schema's `trim` setters and the `populate` of role data into search and fetch results are not modelled. Login's populate is modelled, as the role name it reads.
- Database failures and malformed ids (a cast error on an id answers 500) are not modelled: ids are numbers, and every lookup succeeds or finds nothing.
- The order of list results is not modelled: the search and the role listing return a sub-table.
- Regular-expression metacharacters in `search` are not modelled: the search is a literal case-insensitive prefix.
- Concurrency is not modelled: every handler is atomic, so the race between the name check and the insert cannot occur.
- Message text and JSON shape are not modelled: a message kind stands for each. Every falsy id in a batch entry is `None`.
- Batch values other than text and booleans (null, numbers, arrays, objects) are not modelled. An array or an object given for a string path would fail the cast, and with it the whole ordered write (500). Batch entries that are themselves null are not modelled either.
- RoleController.RoleStore.UpdateRole: takes `roleName`, `accessModule` and `isActive` as present in the body. The store's handling of an absent (undefined) field is not modelled.
- UserController.UserStore.UpdateUser: takes all five body fields as present. The store's handling of an absent (undefined) field is not modelled.
- UserController.UserStore.UpdateManyUsers: counts a user as modified only when its name value changes. With the schema's automatic `updatedAt` stamp, the database would count every matched user.
- UserBulk.BulkWrite: counts an operation as modified only when a field value changes. The automatic `updatedAt` stamp is not modelled here either.
