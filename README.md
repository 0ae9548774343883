# Users table of a small CRUD service, modelled in Dafny

The service keeps `User` rows in one relational table and exposes five
handlers: create, filtered list, get by id, partial update and soft delete.
This project models that data-access layer as an in-memory table and proves
what the handlers promise.

- `wrappers.dfy` (module `Wrappers`): `Option` for nullable columns and
  optional payload fields, `Result` for a handler's outcome.
- `users.dfy` (module `Users`): the row shape `UserRow`, the payloads
  `UserCreate`, `UserUpdate` and `UserFilter`, the error type
  (`NotFound`, `ValueTooLong`, `Conflict`, `UnknownTrack`), and the pure rules
  the handlers follow. These are visibility of soft-deleted rows (`Visible`,
  `Lookup`), filter matching (`MatchesFilter`, the reference meaning, and
  `Holds`/`SatisfiesAll`, the SQL conditions), the update merge (`Merge`),
  soft delete (`SoftDelete`) and what a commit does (`Coerce`, the cast to
  the column types; `Rejection`, the constraint checks; `Commit`, both in
  turn; `TableInvariant`, what the storage keeps true).
- `user_laws.dfy` (module `UserLaws`): lemmas relating those rules.
- `user_table.dfy` (module `UserApi`): class `UserTable`. Its fields are the
  row map, the next value of the id sequence and the set of existing track
  ids. Its methods are the five handlers, each proved against the rules in
  `Users`. `FilterConditions` builds the list query's conditions by appending,
  as the list handler does. `SmokeTestTrace` replays the request sequence of
  `test_api.py:16-66` (create, get, update, delete, list, filtered list)
  against an empty table and proves each answer. After the delete it makes
  two requests that the script does not make, a get (NotFound) and a
  second delete (which succeeds).

Design points:

- A commit first casts the row to the column types. `gender` is
  varchar(1) and `username` varchar(128) (`main.py:51,53`). A longer value
  whose excess characters are all spaces is cut to the column length, as
  PostgreSQL does; any other longer value is refused with `ValueTooLong`.
- The cast row is then checked against the uniqueness of non-null `email`
  and `username` over all rows (deleted ones included), then against the
  foreign key to tracks. A refused write becomes an error and stores
  nothing. `RejectionExact` and `CommitExact` prove that the storage
  refuses exactly those writes that would break `TableInvariant`.
- A row that is missing and a row that is soft-deleted both give `NotFound`
  on get and update. Delete gives `NotFound` only for a missing id and
  succeeds again on a deleted row.
- The source's list query has no ORDER BY. The model returns rows in
  ascending id order, which is one order the query may produce.
- The unique constraints are declared on the columns (`main.py:52-53`), so a
  soft-deleted row still holds its email and username, and a later create
  with either value fails with Conflict.

## Model

| member | source | states |
|---|---|---|
| `Users.Lookup` | main.py:186-190 | the lookup succeeds exactly when the id is stored and the row is not soft-deleted, and then returns that row; otherwise the error is NotFound |
| `Users.Inserted` | main.py:120-122 | a new row has the assigned id, stage 0 and is_deleted false (the column defaults) |
| `Users.Merge` | main.py:214-223 | a merge never changes id, stage or is_deleted |
| `Users.SoftDelete` | main.py:246-251 | soft delete keeps the set of ids, changes no other row, and on the target only sets is_deleted |
| `Users.Holds` | main.py:149-159 | an equality condition on a nullable column never holds where the column is NULL; the not-deleted condition holds exactly on visible rows |
| `Users.SatisfiesAll` | main.py:162-165 | no conditions select every row; a condition list containing the not-deleted condition never selects a deleted row |
| `Users.Fit` | main.py:51-53 | a value that fits the column is kept; a longer value is cut to exactly its first n characters when the excess is all spaces, and refused with ValueTooLong exactly otherwise |
| `Users.Coerce` | main.py:50-54 | the cast succeeds exactly when gender and username can each be fitted to their columns, and then holds the fitted values of those two (NULL stays NULL) and the input's other fields; the result satisfies the column limits and equals the input when it already fits |
| `Users.Rejection` | main.py:52-54 | a cast row is accepted exactly when its track exists and no other row holds its non-null email or username; a refusal is Conflict exactly when the email or username is taken, and UnknownTrack otherwise |
| `Users.Commit` | main.py:51-54 | a commit succeeds exactly when the cast succeeds and the cast row passes the constraints, and then stores the cast row; a failed cast is ValueTooLong; no commit error is NotFound |
| `UserLaws.CommitExact` | main.py:49-54 | on a valid table, a commit succeeds exactly when the row can be cast and the table holding the cast row still satisfies the invariant |
| `UserLaws.TrailingSpacesAreCut` | main.py:51 | a create with gender "M " stores "M", and a create with gender "MX" fails with ValueTooLong |
| `UserLaws.RejectionExact` | main.py:49-54 | on a valid table, the constraint checks accept a row within the column limits exactly when the resulting table still satisfies the invariant (keys, limits, foreign key, unique email and username) |
| `UserLaws.AdvanceKeepsInvariant` | main.py:49 | the next id is not in the table, and advancing the counter keeps the invariant |
| `UserLaws.DuplicateEmailConflicts` | main.py:52 | for any set of tracks, once a first row (as cast) is stored, a second create with the same email whose row can be cast fails with Conflict, also after the first row was soft-deleted |
| `UserLaws.CreateThenGet` | main.py:120-125 | after a successful commit, get on the new id returns the stored row, which carries the create payload with gender and username as cast to their columns; a payload within the column limits is stored and given back unchanged |
| `UserLaws.MergeIdempotent` | main.py:214-223 | applying the same update twice equals applying it once |
| `UserLaws.MergeNothing` | main.py:214-223 | an update with every field None leaves the row unchanged |
| `UserLaws.MergeFieldwise` | main.py:214-223 | each field takes the payload value when it is not None, an empty string included, and keeps the stored value otherwise |
| `UserLaws.MergeNameOnly` | main.py:214-215 | an update giving only a name changes only the name |
| `UserLaws.SoftDeleteIdempotent` | main.py:246-251 | deleting twice gives the same table as deleting once |
| `UserLaws.SoftDeleteHides` | main.py:188-189 | after a delete, the lookup of get and update returns NotFound, while the row is still stored |
| `UserLaws.SoftDeleteKeepsInvariant` | main.py:251 | soft delete preserves the table invariant |
| `UserLaws.DeletedIsMonotone` | main.py:251 | no delete or update turns is_deleted back to false |
| `UserLaws.SatisfiesAllAppend` | main.py:146-162 | appending a condition narrows the selection by exactly that condition |
| `UserLaws.NoFilterMatchesAll` | main.py:146-147 | with no filter, or a filter of all None, every row matches |
| `UserLaws.EmptyStringIsNoConstraint` | main.py:148-157 | an empty name, gender, email or username filter acts as if the field were absent |
| `UserLaws.ZeroIsAConstraint` | main.py:150-159 | stage 0 and track 0 are real constraints that exclude rows with other values |
| `UserLaws.StageOnlyFilter` | main.py:150-151 | a filter giving only stage s matches exactly the rows with stage s |
| `UserApi.FilterConditions` | main.py:146-162 | the conditions end with not-deleted, always, and select exactly the visible rows matching the filter |
| `UserApi.UserTable.GetUsers` | main.py:129-168 | the result holds only stored, visible, matching rows, holds every such row, has no duplicates (ascending ids), and is empty exactly when no visible row matches |
| `UserApi.UserTable.GetUser` | main.py:171-190 | returns the stored row when it exists and is not deleted, NotFound otherwise; the table is unchanged |
| `UserApi.UserTable.CreateUser` | main.py:108-125 | the result is the commit of the new row; on success adds exactly one row, under an id not used before, carrying the payload (cast to the column types), stage 0 and is_deleted false, and leaves other rows untouched; when the row can be cast, a collision of its email or username with any row fails with Conflict; a failure stores nothing; the invariant is kept |
| `UserApi.UserTable.UpdateUser` | main.py:193-228 | a missing or deleted id is NotFound with the table unchanged; otherwise the result is the commit of the merged row, which on success becomes the stored row, and no other row changes; the invariant is kept |
| `UserApi.UserTable.DeleteUser` | main.py:231-255 | fails with NotFound exactly when the id is absent; otherwise the table becomes the soft delete of that id, and the returned row is marked deleted; the invariant is kept |
| `UserApi.SmokeTestTrace` | test_api.py:24-66 | on an empty table with track 1, the create succeeds with id 1, and after the delete both the full list and the list filtered by username "testuser" and stage 0 are empty |

## Left out

- HTTP routing, status codes and response shaping (`UserResponse` drops stage and is_deleted): serialisation only; NotFound stands for the 404.
- Database engine, sessions, commit, refresh and close: each handler runs as one atomic step on the in-memory table, and concurrency between requests is not modelled.
- Timestamps `date_created` and `date_modified`: wall-clock values set by the storage, not modelled.
- `EmailStr` validation and pydantic's other request validation: emails are opaque strings, and requests are taken as already well-typed. The email in the model is the value after pydantic's validation and normalisation.
- Strings containing the character U+0000: PostgreSQL text and its driver refuse them, so such a name, email, username, gender or filter value gives a server error and nothing is stored. The model stores and compares them like any other string.
- The tracks table: it is reduced to a fixed set of existing track ids. Track rows are never created or changed by this code.
- Integer widths: ids, stage and track ids are unbounded integers. The 32-bit column range and the id sequence's upper limit are not modelled.
- UserApi.UserTable.CreateUser: a failed insert leaves the id counter unchanged. A database sequence may instead consume that value. Either way, ids stay fresh.
- Users.Rejection: does not model the size limit of the B-tree indexes on `name` and `email` (`main.py:50,52`). PostgreSQL refuses an index entry larger than about a third of a page, a bound that depends on the encoding and compression of the value, so the model accepts arbitrarily long names and emails. (A username of at most 128 characters always fits its index.)
- Error messages: a rejected write is an error constructor. The web layer would turn it into a server error, and that translation is not modelled.
- config.py: file-based settings reading, not modelled. It defines `MYSQL_USER`, `MYSQL_PASSWORD`, `SERVER_IP` and `DB_NAME`, and none of the `POSTGRES_*` names that `main.py:21` imports. That mismatch is an import failure at start-up and lies outside the data-access layer.
