# User interests and user creation — a Dafny model

This project models the two pieces of decision logic in `routes/users.js` of
the Sync back end (an Express API for a social event-planning app):

- the **user-interest deduplication filter** of `POST /user-interests`: the
  rows of the UserInterests table whose userid and interestid occur among the
  submitted records are fetched, their `(userid, interestid)` combinations
  are collected in a set, and the submitted records whose combination is not
  in that set are inserted, in submission order (module `UserInterests`,
  `user_interests.dfy`);
- the **create-user admission decision** of `POST /users`: a missing field is
  answered with 400, a username already stored with 409, anything else inserts
  one row and answers 201 (module `Users`, `users.dfy`).

Both tables are plain sequences passed in and returned; the database query
(`.select().in(...).in(...)`, `.eq("username", ...)`) is modelled as a
filter over that sequence and the insert as appending to it. The combination
key is the integer pair `(userid, interestid)`.

What is proved:

- the filter keeps a submitted record exactly when its full pair is not
  recorded (both directions), keeps the submission order (a subsequence), never
  lengthens the input, and keeps every duplicate of a new record (per-record
  multiplicities are preserved);
- with no existing rows the output is the input; when every pair exists it is
  empty;
- filtering against the rows the two independent `.in` filters return equals
  filtering against the whole table, so the cross-product rows never cause a
  wrong removal and no relevant row is missed;
- resubmitting the same array adds nothing;
- user creation answers 400 exactly when a field is missing (whatever the table
  holds), 409 exactly when the username is stored, and otherwise appends exactly
  `{name, username, password}`; it keeps usernames unique and a second request
  for the same username is refused.

## Model

| member | source | states |
|---|---|---|
| UserInterests.SelectIn | routes/users.js:360-370 | the selected rows are exactly the table rows whose userid is in the given userid set and whose interestid is in the given interestid set |
| UserInterests.Userids | routes/users.js:363-366 | the set contains the userid of every submitted record and nothing else |
| UserInterests.Interestids | routes/users.js:367-370 | the set contains the interestid of every submitted record and nothing else |
| UserInterests.FetchExisting | routes/users.js:360-370 | `existingRecords` holds exactly the table rows whose userid matches some submitted record and whose interestid matches some (possibly different) submitted record |
| UserInterests.ExistingCombinations | routes/users.js:377-382 | a pair is in `existingCombinations` iff some existing record has exactly that userid and that interestid |
| UserInterests.KeepNew | routes/users.js:384-388 | the kept records are submitted records whose key is not in the set, every submitted record whose key is not in the set is kept, and the output is no longer than the input |
| UserInterests.UniqueRecords | routes/users.js:378-388 | a record is in `uniqueRecords` iff it was submitted and its full (userid, interestid) pair is not recorded among the existing records; the length never exceeds the input's |
| UserInterests.AddUserInterests | routes/users.js:355-395 | the table after the insert extends the old one unchanged and the appended rows are exactly `uniqueRecords` computed against the whole table (same copies, same order); every submitted pair is recorded afterwards, and every added row is a submitted record whose pair was not recorded before |
| UserInterests.SubsequenceLength | routes/users.js:385 | an in-order subsequence is never longer than the sequence it is taken from |
| UserInterests.KeepNewIsSubsequence | routes/users.js:385-388 | the filter's output is an order-preserving subsequence of its input |
| UserInterests.UniqueRecordsIsSubsequence | routes/users.js:385-388 | `uniqueRecords` is an order-preserving subsequence of `interestsArray` |
| UserInterests.KeepNewCount | routes/users.js:385-388 | each record occurs in the output as often as in the input when its key is new, and never when its key is in the set |
| UserInterests.UniqueRecordsCount | routes/users.js:378-388 | duplicates are not collapsed: a new record occurs in `uniqueRecords` exactly as often as it was submitted, a recorded one never |
| UserInterests.DuplicateNewRecordsBothKept | routes/users.js:378-388 | two identical new records submitted together are both kept |
| UserInterests.KeepNewNothing | routes/users.js:385-388 | with an empty key set the filter returns its input |
| UserInterests.NoExistingKeepsAll | routes/users.js:378-388 | with no existing records `uniqueRecords` equals `interestsArray` |
| UserInterests.KeepNewAllKnown | routes/users.js:385-388 | when every submitted key is in the set the filter returns nothing |
| UserInterests.AllExistingKeepsNone | routes/users.js:378-388 | when every submitted pair already exists `uniqueRecords` is empty |
| UserInterests.KeepNewAgree | routes/users.js:385-388 | the filter depends only on which submitted keys are in the set |
| UserInterests.FetchAgreesWithTable | routes/users.js:360-388 | filtering against the rows the two independent `.in` filters return gives the same result as filtering against the whole table: rows sharing only a userid or only an interestid never remove a record |
| UserInterests.ResubmitAddsNothing | routes/users.js:355-395 | submitting the same array a second time leaves the table unchanged |
| Users.Status.Code | routes/users.js:91-106 | the three outcomes map one-to-one onto the HTTP codes 400, 409 and 201 |
| Users.CheckForUniqueUsername | routes/users.js:112-118 | the returned rows are exactly the stored users with that username; the list is non-empty iff the username is taken |
| Users.CreateUser | routes/users.js:88-106 | 400 iff a field is missing or empty; 409 iff all fields are present and the username is stored; the table is unchanged unless the answer is 201, which appends exactly `{name, username, password}` |
| Users.MissingFieldIgnoresTable | routes/users.js:91-93 | a request with a missing field is answered 400 with the table unchanged, whatever the table holds |
| Users.CreateUserKeepsUsernamesUnique | routes/users.js:96-106 | if no two stored users share a username, the same holds after the handler |
| Users.SecondCreateConflicts | routes/users.js:96-106 | after a successful creation, a second complete request with the same username is answered 409 and changes nothing |

## Left out

- Storage failures: the fetch-error early return of `/user-interests` (routes/users.js:372-375) and every try/catch 500 answer are I/O failure handling.
- Failed inserts: both inserts discard the `error` the store returns (routes/users.js:102-106 and 392-395), so a failed insert is still answered 201 or 200 "Added interests!". The model assumes every insert succeeds: `CreateUser` appends the row whenever it answers 201, and `AddUserInterests` always appends `uniqueRecords`.
- Body field types: `name`, `username` and `password` are modelled as optional strings only. A JSON `0` or `false` is falsy and answered 400 by the `!field` test at routes/users.js:91, but the model cannot express a non-string value.
- Concurrency: the check-then-insert window between the lookup and the insert of `/users` (routes/users.js:96-105) is not sequential behaviour; the model runs each request alone, so `CreateUserKeepsUsernamesUnique` holds only for serialised requests.
- `JSON.stringify` keying (routes/users.js:380, 386): ids are modelled as integers, so a string id and a numeric id that would print differently are not distinguished here.
- A missing `interestsArray` makes `interestsArray.map` throw outside the try block (routes/users.js:365); the model always receives a sequence, and the handler has no 400 path for it.
- The id returned with 201 (routes/users.js:105-106) is generated by the database and is not modelled; the row is stored without it.
- Login (routes/users.js:187-212): the credential match is done inside the database query; user search and profile lookup are single selects.
- Express routing, JSON response bodies and logging.
- routes/groups.js and routes/interests.js are not part of this model: their handlers are presence checks around database calls (a single insert, select or delete, or, at routes/groups.js:269-290, a join select followed by a second select), with no decision logic beyond the presence checks.
- routes/events.js is not part of this model: event creation and the vote listing are database calls, and the vote handler (routes/events.js:233-257) inserts one row per submitted vote under `Promise.all`. There is no vote counter, per-member status or event-closure logic in the source, so none is modelled.
- app.js (fixed-string stub handlers at app.js:18-77 and `listen`) and swagger.js (documentation configuration) are not part of this model.
