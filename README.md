# Checklist backend: tables, access rule, repositories and controllers

This project models the domain layer of a multi-user checklist service in Dafny.
Users own lists of items. They can share a list with other users at one of three
levels: `read`, `write` or `admin`. The model covers:

- the four SQLite tables (`users`, `lists`, `list_items`, `list_shares`), as
  sequences of rows in rowid order, held by one `Store.Database` object with
  its AUTOINCREMENT counters and a logical clock standing in for
  `CURRENT_TIMESTAMP`;
- the access rule `List.checkPermission`: the creator of a list passes every
  check; anyone else needs a share row whose level ranks at least the
  required one in `["read", "write", "admin"]`;
- the list repository and the sharing manager (`List.js`), the item
  repository with its stats (`ListItem.js`) and the identity store
  (`User.js`), as imperative methods on the database;
- the three controllers: the validation chains of express-validator, the
  order in which each handler checks and calls the models, and the status
  code every outcome maps to. This includes the `catch` blocks that look for
  keywords in the error message.

The module layout follows the program:

- `Base`: sequence queries that stand in for SQL.
- `Js`: truthiness, `trim`, `includes`, `isBoolean`.
- `Store`: rows, tables, schema constraints and the database class.
- `ListModel`, `ItemModel`, `UserModel`: the three models.
- `Http`: replies, the caller, the `catch` mapping.
- `ListController`, `ItemController`, `UserController`: the three controllers.

Every state-changing method states its whole new state in terms of a function
of the old tables, and keeps `Valid()`. Lemmas then prove what the source
promises about those functions: a share upsert leaves exactly one row per pair,
toggling twice restores the flag, `findByUser` lists exactly the visible
lists, the stats counts equal the per-list counts, and so on.

Several handlers depart from the usual 404/409 conventions of a REST API; the model follows the code:

- `getListById` runs the read check before the existence check. A missing
  list is therefore a 403, and on a consistent database the 404 branch can
  never be taken.
- `updateItem`, `toggleCompleted` and `deleteItem` answer a missing item
  with 403, not 404.
- A required level outside the three known ones ranks -1. Any share row
  then passes the check.
- Email uniqueness on a profile update is checked by the controller (409).
  `User.update` itself does not check it: a clash there would be a UNIQUE
  violation, which the handler answers with 500.

## Model

| member | source | states |
|---|---|---|
| Store.Consistent | backend/src/database/setup.js:9-62 | Three kinds of fact. Declared keys and UNIQUE constraints: keys ascend in rowid order, emails are unique, one share row per (list, user). Declared foreign keys, modelled as enforced: every list has an existing creator, every item an existing list, every share an existing list and user. Maintained by the code, not the schema: no share on an individual list, because `List.shareList` refuses one and `List.update` never writes `is_individual`. |
| Store.FindItem | backend/src/models/ListItem.js:30-33 | `ListItem.findById`: finds a row exactly when some item has that id, and the row found has that id. |
| Store.FindUserByEmail | backend/src/models/User.js:20-23 | `User.findByEmail`: finds a row exactly when some user has that email. |
| Store.FindShareOnly | backend/src/database/setup.js:60 | Under `UNIQUE(list_id, user_id)`, the share row a pair looks up is the row of that pair. |
| ListModel.LevelIndex | backend/src/models/List.js:198-200 | `indexOf` in the level array: -1 exactly for a string that is not a level; otherwise the element at that rank is the level. |
| ListModel.CheckPermission | backend/src/models/List.js:175-203 | The creator is always allowed. Anyone else passes only with a share row on the list whose rank is at least the required rank. |
| ListModel.IsCreatorMeansOwns | backend/src/models/List.js:179-184 | With unique list ids, the `created_by === userId` lookup holds exactly when some list row has that id and that creator. |
| ListModel.CheckPermissionMeansGrants | backend/src/models/List.js:179-202 | On a consistent database the lookups decide exactly the table-level rule: the user created the list, or holds a share row on it of sufficient rank. |
| ListModel.OwnerAlwaysAllowed | backend/src/models/List.js:183-185 | The creator passes the check for every required level, whatever the share rows say. |
| ListModel.ShareLevelDecides | backend/src/models/List.js:188-202 | For a non-creator the one share row decides by rank, in both directions. admin passes every known level; write passes read but not admin; read passes read but not write; an unknown stored level passes no known level. |
| ListModel.UnknownRequiredLevelPassed | backend/src/models/List.js:198-202 | A required level outside the three known ones is passed by any share row. |
| ListModel.AllowedListExists | backend/src/models/List.js:179-195 | On a consistent database, anyone allowed anything on a list id proves that the list exists. |
| ListModel.FindById | backend/src/models/List.js:16-27 | `List.findById`: the list with that id joined with its creator's name. On a consistent database it is found exactly when the id exists. |
| ListModel.FindByUser | backend/src/models/List.js:29-47 | The lists the user created or holds a share on, labelled `owner` or with the raw share level, sorted by `updated_at` descending, each with its creator's name. Every such list whose creator exists is included. |
| ListModel.FindByUserExactlyVisible | backend/src/models/List.js:33-43 | On a consistent database a list is returned exactly when the user created it or holds a share on it, and each list appears once. |
| ListModel.GetListItems | backend/src/models/List.js:205-222 | Without read access, the "Sem permissão para ver esta lista" error. Otherwise a permutation of the list's items sorted by `created_at` descending. |
| ListModel.GetSharedUsers | backend/src/models/List.js:151-173 | Fails exactly for a caller who is not the creator, with the owner-only message. Otherwise the list's shares joined with their users, sorted by share time descending. |
| ListModel.GetSharedUsersComplete | backend/src/models/List.js:163-172 | On a consistent database every share row of the list appears, joined with its user. |
| ListModel.Rename | backend/src/models/List.js:60-63 | The UPDATE sets only name, description and `updated_at` on the row with that id; every other row and column is unchanged. |
| ListModel.RenameKeeps | backend/src/models/List.js:60-63 | A rename keeps the database valid. |
| ListModel.AppendListKeeps | backend/src/models/List.js:8-11 | Inserting a list with the next key and an existing creator keeps the database valid. |
| ListModel.DeleteCascade | backend/src/database/setup.js:46-58 | Deleting a list removes exactly that list, its items and its shares; users are unchanged. |
| ListModel.DeleteCascadeConsistent | backend/src/database/setup.js:46-59 | After the cascade no item or share points to a missing list. |
| ListModel.DeleteCascadeKeeps | backend/src/models/List.js:80-81 | A list delete with its cascade keeps the database valid. |
| ListModel.PairShares | backend/src/database/setup.js:60 | The share rows of one (list, user) pair, exactly. |
| ListModel.AtMostOneSharePerPair | backend/src/database/setup.js:60 | Under the unique constraint a pair has at most one share row. |
| ListModel.Upsert | backend/src/models/List.js:108-126 | With no row for the pair, one new row is appended. Otherwise only the pair's row has its permission replaced, in place, and no row is added. |
| ListModel.UpsertRows | backend/src/models/List.js:108-126 | Every row after the upsert is an old row, the pair's row with the new level, or the new row; and every row of another pair is kept. |
| ListModel.UpsertLeavesOneRow | backend/src/models/List.js:108-126 | After an upsert the pair has exactly one share row, carrying the new level, and the keys still ascend. |
| ListModel.UpsertConsistent | backend/src/models/List.js:84-126 | Upserting a share on an existing non-individual list for an existing user keeps the database consistent. |
| ListModel.UpsertKeeps | backend/src/models/List.js:114-126 | A share upsert keeps the database valid. The key counter advances only on an insert. |
| ListModel.Unshare | backend/src/models/List.js:143-146 | Exactly the share rows of the pair are removed. |
| ListModel.UnshareKeeps | backend/src/models/List.js:143-146 | Removing a share keeps the database valid. |
| ListModel.ShareTarget | backend/src/models/List.js:88-106 | The checks of `shareList`, in order: not the creator, then individual list, then unknown email. Each gives its own message, and the owner check comes first. Otherwise the id of the user with that email. |
| ListModel.Create | backend/src/models/List.js:4-14 | Inserts one list with the next key, created by the caller, with the truthiness of `isIndividual`. A caller with no user row gets the foreign-key error and nothing changes. |
| ListModel.Update | backend/src/models/List.js:49-66 | Without write access: the permission error, and nothing changes. With no name: the NOT NULL error, and nothing changes. Otherwise exactly the rename, with result "a row matched". |
| ListModel.Delete | backend/src/models/List.js:68-82 | Anyone but the creator of an existing list gets "Apenas o criador pode deletar a lista", and nothing changes; this includes admin-level sharees. Otherwise the list is deleted with its cascade. |
| ListModel.ShareList | backend/src/models/List.js:84-129 | Any error of `ShareTarget` leaves the tables unchanged. Otherwise the share is upserted. |
| ListModel.RemoveShare | backend/src/models/List.js:131-149 | Only the creator may remove a share. The result is whether a row of the pair existed, and exactly that pair's rows are removed. |
| ItemModel.Touch | backend/src/models/ListItem.js:22-25 | Only the given list's `updated_at` changes. |
| ItemModel.TouchKeeps | backend/src/models/ListItem.js:22-25 | Bumping a list keeps the database valid. |
| ItemModel.Rewrite | backend/src/models/ListItem.js:78-81 | Name, description, image, completed and `updated_at` of the item with that id are replaced; every other row is unchanged. |
| ItemModel.SetCompleted | backend/src/models/ListItem.js:116-119 | Only the flag and `updated_at` of the item with that id change. |
| ItemModel.Remove | backend/src/models/ListItem.js:152-154 | Exactly the rows with that id are removed. |
| ItemModel.RewriteItemKeeps | backend/src/models/ListItem.js:78-87 | Rewriting an item and bumping a list keeps the database valid. |
| ItemModel.SetCompletedKeeps | backend/src/models/ListItem.js:116-125 | Setting the flag and bumping a list keeps the database valid. |
| ItemModel.AppendItemKeeps | backend/src/models/ListItem.js:16-25 | Inserting an item with the next key into an existing list and bumping that list keeps the database valid. |
| ItemModel.RemoveKeeps | backend/src/models/ListItem.js:152-160 | Deleting an item and bumping a list keeps the database valid. |
| ItemModel.ToggleTwice | backend/src/models/ListItem.js:114-119 | Toggling an item twice restores its flag. Only its `updated_at` differs from the original table; every other row is unchanged. |
| ItemModel.GroupedByStatus | backend/src/models/ListItem.js:44-51 | A permutation of the items in which open items come before completed ones, each group newest first. |
| ItemModel.GroupsCover | backend/src/models/ListItem.js:48 | The two sorted groups together hold every item exactly once. |
| ItemModel.GroupsOrdered | backend/src/models/ListItem.js:48 | The concatenated groups are in `completed ASC, created_at DESC` order. |
| ItemModel.FindByList | backend/src/models/ListItem.js:35-52 | Without read access, "Sem permissão para ver os itens desta lista". Otherwise a permutation of the list's items in the order above. |
| ItemModel.Percentage | backend/src/models/ListItem.js:188-189 | 0 for an empty list. Otherwise the integer closest to 100·completed/total, rounding halves up. It lies in [0, 100] whenever completed ≤ total. |
| ItemModel.PercentageExtremes | backend/src/models/ListItem.js:188-189 | All done is 100 (0 for the empty list); none done is 0. |
| ItemModel.GetListStats | backend/src/models/ListItem.js:165-191 | Without read access, the stats error. Otherwise total is the number of the list's items, completed the number of completed ones, pending = total − completed ≥ 0, and the percentage above. |
| ItemModel.Create | backend/src/models/ListItem.js:5-28 | Without write access: the error, and nothing changes. Otherwise exactly one open item is appended with the next key, and only its list is bumped. |
| ItemModel.Update | backend/src/models/ListItem.js:54-90 | Through `ItemAccess` and `AccessError`: not found ("Item não encontrado"), then denied on the item's own list, each changing nothing; a missing name violates NOT NULL; otherwise the wholesale rewrite (completed by truthiness) and the bump of the item's list. |
| ItemModel.ToggleCompleted | backend/src/models/ListItem.js:92-128 | Through `ItemAccess` and `AccessError`: not found, then denied on the item's own list, each changing nothing; otherwise the flag becomes the negation of its stored value and the item's list is bumped. |
| ItemModel.Delete | backend/src/models/ListItem.js:130-163 | Through `ItemAccess` and `AccessError`: not found, then denied on the item's own list, each changing nothing; otherwise the item is removed and its list bumped. |
| UserModel.FindById | backend/src/models/User.js:25-32 | Found exactly when the id exists; the result is the row's id, name, email, avatar and creation time, without the password. |
| UserModel.PasswordNotInProfile | backend/src/models/User.js:27-30 | Changing any password leaves every profile `findById` returns unchanged. |
| UserModel.SetProfile | backend/src/models/User.js:38-41 | Only name, email, avatar and `updated_at` of the row with that id change; the password is untouched. |
| UserModel.SetPassword | backend/src/models/User.js:50-53 | Only the credential and `updated_at` of the row with that id change. |
| UserModel.DeleteUserCascade | backend/src/models/User.js:58-62 | The cascade removes the user, the lists they created, those lists' items and shares, and the user's own share rows, and nothing else. |
| UserModel.SetProfileKeeps | backend/src/models/User.js:38-41 | A profile update keeps the database valid if no other user has the new email. |
| UserModel.SetPasswordKeeps | backend/src/models/User.js:50-53 | A password change keeps the database valid. |
| UserModel.AppendUserKeeps | backend/src/models/User.js:12-15 | Inserting a user with the next key and a fresh email keeps the database valid. |
| UserModel.DeleteUserKeeps | backend/src/models/User.js:60-61 | A user delete with its cascade keeps the database valid. |
| UserModel.Create | backend/src/models/User.js:5-18 | A taken email gives the UNIQUE error and changes nothing. Otherwise one user is appended with the next key. |
| UserModel.Update | backend/src/models/User.js:34-44 | An unknown id gives false and changes nothing; an email another user has gives the UNIQUE error; otherwise exactly the profile update, returning true. |
| UserModel.UpdatePassword | backend/src/models/User.js:46-56 | The result is true exactly when a row exists. Only the credential of that row changes. |
| UserModel.Delete | backend/src/models/User.js:58-62 | The result is true exactly when a row exists; the tables become the cascade. |
| UserModel.GetStats | backend/src/models/User.js:68-87 | Both counts are bounded by the table sizes. `listsCreated` is 0 exactly when the user created no list. `itemsCompleted` is 0 exactly when no completed item lies in a list the user created. |
| UserModel.ListsCreatedCountsOwned | backend/src/models/User.js:71-74 | `listsCreated` equals the number of distinct lists with `created_by = userId`. |
| UserModel.CreatedCount | backend/src/models/User.js:71-74 | The count of matching rows equals the number of distinct owned ids, by induction over a table of ascending keys. |
| UserModel.ItemsCompletedSumsListStats | backend/src/models/User.js:76-81 | On a consistent database `itemsCompleted` is the sum of the per-list completed counts over the user's own lists only. |
| UserModel.SumCounts | backend/src/models/User.js:76-81 | Over lists with distinct ids, the per-list counts add up to the number of completed items in those lists. |
| UserModel.StatsIgnoreShares | backend/src/models/User.js:76-81 | The share rows play no part in the counts: lists shared with the user add nothing. |
| Js.Truthy | backend/src/models/List.js:10 | JavaScript truthiness: absent and null are false; a JSON boolean is itself. |
| Js.StringFalseIsTruthy | backend/src/models/ListItem.js:80 | "false" and "0" pass `isBoolean()`, yet `completed ? 1 : 0` stores them as true. |
| Js.JsonBooleanIsFaithful | backend/src/models/ListItem.js:80 | A JSON boolean passes `isBoolean()` and is stored as itself. |
| Js.Trim | backend/src/controllers/listController.js:8 | `trim()`: a contiguous slice of the input that neither starts nor ends with whitespace. It is empty exactly when the input is all whitespace. |
| Js.TrimmedNonEmptyIffVisible | backend/src/controllers/listController.js:8-9 | `isLength({ min: 1 })` after `trim()` holds exactly when the value has a non-space character. |
| Js.TrimIdempotent | backend/src/controllers/listController.js:8 | Trimming twice is trimming once. |
| Js.MissingCharNotIncluded | backend/src/controllers/listController.js:125 | `includes(k)` is false when `k` holds a character the message lacks. |
| ListController.CreateErrors | backend/src/controllers/listController.js:6-15 | No errors exactly when the name has a non-space character and `isIndividual` passes `isBoolean()`; only the two chain messages occur. |
| ListController.UpdateErrors | backend/src/controllers/listController.js:17-24 | An absent name passes; a given one must have a non-space character, and otherwise the one message. |
| ListController.ShareErrors | backend/src/controllers/listController.js:26-31 | No errors exactly when the email passes `isEmail` and the permission is one of the three levels; a bad level always yields its message. |
| ListController.WithStats | backend/src/controllers/listController.js:73-81 | A list keeps its row; it has stats exactly when the read check passes, and they are `getListStats`'s. |
| ListController.GetUserLists | backend/src/controllers/listController.js:67-91 | Always 200. One entry per list of `findByUser`, in order; each has stats exactly when the caller may read it, independently of the others, and those stats are exactly `getListStats`'s for that list. |
| ListController.Entries | backend/src/controllers/listController.js:72-82 | The `map` keeps length, order and rows; stats are present exactly where the read check passes, and are then `getListStats`'s result for that list. |
| ListController.StatsMissingOnlyForUnknownLevels | backend/src/controllers/listController.js:72-82 | On a consistent database a list comes without stats exactly when the caller is not its creator and holds it under an unknown level. |
| ListController.GetListById | backend/src/controllers/listController.js:93-130 | No read access is a 403, checked first; then a missing list is a 404; otherwise 200 with the list, its stats and its items in `findByList` order. |
| ListController.MissingListForbidden | backend/src/controllers/listController.js:97-108 | A nonexistent list yields 403, and on a consistent database 404 never occurs. |
| ListController.GetSharedUsersReply | backend/src/controllers/listController.js:244-263 | A caller who is not the creator gets 403 with the owner-only message; the creator gets 200 with `getSharedUsers`'s rows. |
| ListController.ShareFailuresAre400 | backend/src/controllers/listController.js:205-216 | Every error `List.shareList` raises (owner, individual, unknown user) is answered with 400 and its own message, never 403, by the keyword `catch` of `Http.Caught`. |
| ListController.ShareMessagesMentioned | backend/src/controllers/listController.js:207-213 | Each of those three messages contains one of the handler's keywords. |
| ListController.NotNullMentionsNone | backend/src/controllers/listController.js:159-162 | The SQLite NOT NULL message does not contain "permissão", so the keyword `catch` of `Http.Caught` answers that failure with the generic 500. |
| ListController.CreateList | backend/src/controllers/listController.js:34-65 | Validation failure: 400 and nothing created. A caller row that is gone: 500. Otherwise exactly one list with the trimmed texts, and 201 with that list found. |
| ListController.UpdateList | backend/src/controllers/listController.js:132-164 | 400 on validation; 403 without write access; 500 when the name is absent (NOT NULL); otherwise the rename and 200. Each failure changes nothing. |
| ListController.DeleteList | backend/src/controllers/listController.js:166-187 | Anyone but the creator gets 403 and nothing changes; the creator gets 200 and the cascade. |
| ListController.ShareList | backend/src/controllers/listController.js:189-217 | A bad email or level gives 400 before any model call; every model error gives 400 with its message; otherwise the upsert and 200. |
| ListController.RemoveShare | backend/src/controllers/listController.js:219-242 | Anyone but the creator gets 403. For the creator the pair's rows are removed: 200 if a row existed, else 400. |
| ItemController.CreateErrors | backend/src/controllers/itemController.js:5-15 | No errors exactly when the name has a non-space character and a given image passes `isURL`. |
| ItemController.UpdateErrors | backend/src/controllers/itemController.js:17-32 | No errors exactly when a given name has a non-space character, a given image passes `isURL` and a given `completed` passes `isBoolean()`; a bad `completed` always yields its message. |
| ItemController.GetListItems | backend/src/controllers/itemController.js:73-89 | 403 without read access; otherwise 200 with a permutation of the list's items in `findByList` order. |
| ItemController.GetItemById | backend/src/controllers/itemController.js:91-122 | Existence first (404), then read access on the item's own list (403); 200 with the item exactly when both hold. |
| ItemController.ItemReadableByListAccess | backend/src/controllers/itemController.js:101-113 | For a present item on a consistent database, 200 exactly when the caller created its list or holds a share of sufficient rank. |
| ItemController.GetListStatsReply | backend/src/controllers/itemController.js:223-239 | 403 without read access; otherwise 200 with exactly `getListStats`'s object: total = the list's item count, pending = total − completed ≥ 0, and a percentage in [0, 100]. |
| ItemController.AccessErrorsAre403 | backend/src/controllers/itemController.js:158-166 | Both a missing item and a denied write (the two `AccessError` messages) are answered by `Http.Caught` with 403 and the model's message, never 404. |
| ItemController.NotNullItemIs500 | backend/src/controllers/itemController.js:158-167 | The SQLite NOT NULL message mentions neither keyword, so it is a 500. |
| ItemController.CreateItem | backend/src/controllers/itemController.js:35-71 | 400 on validation before any model call; 403 without write access; otherwise one open item is appended and its list is bumped; 201 with the new item. |
| ItemController.UpdateItem | backend/src/controllers/itemController.js:124-168 | 400 on validation; a missing or denied item gives 403; a nameless update gives 500; otherwise the rewrite, the bump of the item's list, and 200. |
| ItemController.ToggleCompleted | backend/src/controllers/itemController.js:170-198 | A missing or denied item gives 403 and changes nothing; otherwise the flag is negated, the item's list is bumped, and 200 with the item. |
| ItemController.DeleteItem | backend/src/controllers/itemController.js:200-221 | A missing or denied item gives 403 and changes nothing; otherwise the item is removed, its list is bumped, and 200. |
| UserController.ProfileErrors | backend/src/controllers/userController.js:5-16 | No errors exactly when a given name keeps at least two characters after trim, a given email passes `isEmail` and a given avatar `isURL`. |
| UserController.Merge | backend/src/controllers/userController.js:67-71 | With `Js.OrElse` and `Js.OrNull`: a given non-empty name, email or avatar is written as given; a missing or empty name or email keeps the caller's current value; a missing or empty avatar becomes null. |
| UserController.MergedEmailFree | backend/src/controllers/userController.js:58-71 | Once the conflict check passed and `req.user` is current, the merged email belongs to no other user, so the update cannot hit `email UNIQUE`. |
| UserController.UpdateProfile | backend/src/controllers/userController.js:46-93 | 400 on validation; 409 with nothing written when a new, different email is taken (the caller's own email skips the check); 400 for a vanished row; otherwise the merged update and 200 with the values read back. |
| UserController.UpdatedRowRead | backend/src/controllers/userController.js:77-87 | After the update, `findById` reads back exactly the written name, email and avatar. |
| UserController.GetProfile | backend/src/controllers/userController.js:19-44 | 404 exactly when the caller's row is gone; otherwise 200 with the profile and `getStats`. |
| UserController.ProfileIgnoresPassword | backend/src/controllers/userController.js:21-39 | The reply does not depend on the stored password. |
| UserController.DeleteAccount | backend/src/controllers/userController.js:95-126 | A missing password gives 400 before any lookup. A password that does not validate gives 401 and deletes nothing. Otherwise the cascade, with 200 (or 400 if the row was already gone). |
| UserController.ExportData | backend/src/controllers/userController.js:128-163 | 200 exactly when every list of `findByUser` passes the read check, with one entry per list in the same order, each carrying `findByList`'s items; otherwise 500. |
| UserController.ExportLists | backend/src/controllers/userController.js:146-152 | The loop yields an export exactly when every list is readable, and the export pairs each list with its items, in order. |
| UserController.ExportPrefixAppend | backend/src/controllers/userController.js:148-151 | Each `push` extends the export by the next list and its items. |
| UserController.ExportableWhenLevelsKnown | backend/src/controllers/userController.js:146-147 | On a consistent database whose share levels are all known, every list of `findByUser` passes the read check, so the export succeeds. |
| UserController.ReadableIfVisible | backend/src/models/List.js:179-202 | A list the user created, or holds a share of a known level on, passes the read check. |

## Left out

- Hashing: bcrypt is not modelled. A hash is an opaque `PasswordHash`, and `User.validatePassword` is the parameter `matches` of `DeleteAccount`.
- `isEmail` and `isURL` are uninterpreted predicates passed as parameters.
- Authentication: JWT verification in the middleware is not modelled. The caller is the row `Http.Caller` that the middleware would attach. Routes, `server.js` and `authController.js` are not part of this model.
- `User.create` and `User.findByEmail` are modelled only as the operations the controllers call. Registration is not part of this model.
- ItemModel.Percentage: computed as exact rounding with halves up, `(200·c + t) div (2·t)`; the floating-point `Math.round(c / t * 100)` can differ on exact .5 boundaries.
- Foreign keys: the declared cascades and foreign-key checks are modelled as enforced. The connection code never issues `PRAGMA foreign_keys = ON`, and without it SQLite enforces neither.
- Time: `CURRENT_TIMESTAMP` is a logical clock that advances once per operation. `exportedAt` is a parameter of `ExportData`.
- Concurrency: the check-then-write sequences run without transactions. The model is sequential.
- Ordering ties: rows with equal sort keys (`updated_at`, `created_at`) keep their rowid order in the model, which SQLite does not promise.
- Text: strings are sequences of characters. UTF-16 code units, Unicode whitespace beyond the listed characters, and non-string JSON values for text fields are not modelled.
- Path parameters: ids arrive already parsed. Non-numeric path parameters and `parseInt` on them are not modelled.
- Validation details: `errors.array()` objects are reduced to their messages.
- Joins: the JOINs of `List.findById` and `User.getStats` are modelled as lookups of the first row with the key. This equals the SQL JOIN under unique keys.
- Behaviours shown, not corrected:
  - `updateList` and `updateItem` without a name pass validation but violate `name NOT NULL`, and answer 500.
  - The string "false" passes `isBoolean()` and is stored as completed.
