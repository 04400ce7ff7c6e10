# Member, account, form-answer and observation handlers, modelled in Dafny

The backend manages members (staff), the areas (disciplines) they belong to, athletes,
per-athlete discussion threads with observations, and form answers. Each HTTP route
handler reads and writes a relational database through an ORM. This project lifts the
decision and reconciliation logic of six handlers out of the database calls and states
it over one immutable store value, `Store.Db`:

- members as a map from id to row;
- areas as a map from their unique name to their id, plus the next id to hand out;
- the member/area join table as a set of `MemberArea` links;
- threads and athlete-forms as sequences. The handlers look these rows up with a
  `findFirst` that has no ordering, so the database may return any matching row; the
  model picks the first matching row in sequence order. This matters only when two
  rows match, for example two threads for the same athlete and area, which
  `WellFormed` does not exclude;
- observations, answers and questions as maps keyed by their unique ids.

A handler that runs in one database transaction is a pure function returning
`Result<Db>`. `Err` means the transaction rolled back and nothing was written. The
error set is closed: `BadRequest`, `NotFound`, `Unauthorized`, plus `DbRejected` for
the two errors the ORM raises by itself. These are updating a row that does not
exist (`MissingRow`) and writing a value a unique index already holds
(`DuplicateKey`). E-mails and area names are unique indexes: the handlers look rows up
by them with unique-key queries.

Modules, one per handler:

- `MemberUpdate` (members/update-member.ts). It replaces the member's name, e-mail,
  phone and role. Then it diffs the member's linked area ids against the ids of the
  requested area names, adds the missing links and removes the stale ones.
- `AccountCreation` (auth/create-account.ts). It fills in the body defaults and
  rejects short passwords and already-registered e-mails. Then it inserts the member,
  creates the requested areas that have no row, and links the member to every
  requested area.
- `FormAnswers` (forms/update-form-answer.ts). It finds the athlete's form and writes
  each listed question's observation. It folds the listed answers into one object
  keyed by question id, where the last entry wins, and stores that object as the
  form's only answer row. These writes run outside a transaction, so this handler
  returns the store it leaves behind together with its error (`FormAnswers.Reply`).
- `Threads`: the area-then-thread lookup both observation handlers start with.
- `ObservationRemoval` (athletes/remove-athlete-observation.ts) and
  `ObservationUpdate` (athletes/update-athlete-observation.ts). Each is a chain of
  NotFound and Unauthorized checks. Removal also checks that the observation lies in
  the path's thread; update does not. Lemmas make that difference explicit.
- `EmailChange` (account/change-email.ts). An e-mail already in use ends the request
  silently. Otherwise the user must exist and give the right password. The branch for
  the user's own current e-mail is unreachable.

`Store.WellFormed` is the integrity the database schema keeps: unique e-mails, members
stored under their own id, distinct area ids below the next one, and links that point
at existing rows. The handlers that write those tables are proved to preserve it.

Account creation answers an already-registered e-mail with a bad-request error whose
message is "User with same e-mail already exists." (auth/create-account.ts:47-49).

Both password rules count characters the way a JavaScript string does, in UTF-16 code
units (`Store.Utf16Length`). A character outside the Basic Multilingual Plane counts
twice, so three such characters make a valid six-unit password.

Two behaviours of the code are worth knowing:

- Account creation fails as a whole when the request names the same missing area
  twice. The filter keeps the repetition, so the second `area.create` hits the unique
  index on area names (`AccountCreation.RepeatedMissingAreaRejected`).
- The change-email branch for the user's own e-mail is unreachable even if e-mails
  were not unique. A user whose e-mail equals the requested one is a member using that
  e-mail, so the first lookup has already answered.

## Model

| member | source | states |
|---|---|---|
| `Store.Utf16LengthBounds` | src/http/routes/auth/create-account.ts:22 | `Store.Utf16Length` is the length of a string as a JavaScript string reports it: the characters plus one more for each character outside the Basic Multilingual Plane. The lemma states that this lies between the number of characters and twice that. It equals the number of characters exactly when every character lies in the Basic Multilingual Plane. |
| `Store.AstralCharactersCountTwice` | src/http/routes/account/change-email.ts:24 | Three characters outside the Basic Multilingual Plane form a three-character string of six code units. |
| `MemberUpdate.UpdateMember` | src/http/routes/members/update-member.ts:44-91 | Fails with MissingRow when the member does not exist, and with DuplicateKey when another member holds the new e-mail; these are the only failures. On success the four request fields replace the stored ones and the id and password hash stay. No other member changes. The member's linked area ids equal the ids the requested names resolve to. Other members' links are neither added nor removed. No other table is written. |
| `MemberUpdate.ResolveAreaIds` | src/http/routes/members/update-member.ts:57-64 | An id is in `newAreaIds` exactly when some requested name has an area row with that id, so names without a row are dropped silently. The list is never longer than the request. |
| `MemberUpdate.AreasToAdd` | src/http/routes/members/update-member.ts:66 | An id is to be added exactly when it is requested and not already linked. The list is empty exactly when every requested id is already linked. |
| `MemberUpdate.AreasToRemove` | src/http/routes/members/update-member.ts:67 | The ids to remove are a subset of the existing links and are disjoint from the requested ids. Every linked id that is not requested is included. |
| `MemberUpdate.ReconcileBySets` | src/http/routes/members/update-member.ts:72-90 | The guarded `createMany` with skipped duplicates followed by the guarded `deleteMany` equals a set union followed by a set difference. Repeated ids therefore add no duplicate link, and an empty list writes nothing. |
| `MemberUpdate.OnlyKnownNameSetMatters` | src/http/routes/members/update-member.ts:57-80 | Two bodies that differ only in their area lists give the same outcome when the lists name the same areas that have rows. Repeating a name, reordering the list or adding a name without a row changes nothing. |
| `MemberUpdate.UpdateIsIdempotent` | src/http/routes/members/update-member.ts:50-67 | Re-sending a body that succeeded finds nothing to add and nothing to remove, and leaves the store as it was. |
| `MemberUpdate.UpdatePreservesWellFormed` | src/http/routes/members/update-member.ts:45-90 | A successful update of a well-formed store leaves it well-formed: e-mails stay unique and every link points at an existing member and area. |
| `AccountCreation.ParseRequest` | src/http/routes/auth/create-account.ts:18-33 | A given password shorter than 6 UTF-16 code units is a bad request, and that is the only failure. Every accepted password has at least 6 code units. An omitted password becomes "T21-ARENA-PARK", an omitted role becomes MEMBER, and omitted areas become `[UNSPECIFIED]`. Given values are kept. |
| `AccountCreation.AstralPasswordAccepted` | src/http/routes/auth/create-account.ts:22 | A password of three characters outside the Basic Multilingual Plane is six code units long and passes the length rule. |
| `AccountCreation.AreasToCreate` | src/http/routes/auth/create-account.ts:71-72 | A name is to be created exactly when it is requested and has no area row. Each missing name occurs as often as in the request, and a name with a row occurs never. |
| `AccountCreation.CreateAreas` | src/http/routes/auth/create-account.ts:74-80 | Creating the missing names fails with DuplicateKey exactly when a name repeats. On success every name gets an index entry with a new consecutive id, and the existing entries keep their ids. |
| `AccountCreation.LinkAreas` | src/http/routes/auth/create-account.ts:64-90 | The area part of the transaction succeeds exactly when no missing name repeats. On success the area index gains exactly the requested names and keeps its old entries. The only links added belong to the new member. Members, threads, observations and forms are untouched. |
| `AccountCreation.CreateAccount` | src/http/routes/auth/create-account.ts:39-91 | A body that fails validation is a bad request. A registered e-mail gives BadRequest "User with same e-mail already exists." with nothing written. Past those checks, creation fails exactly when a missing area name repeats. On success the member table gains exactly the new member, with the hashed password and the given fields. The area index gains exactly the requested names, old links stay, and added links belong to the new member. |
| `AccountCreation.Register` | src/http/routes/auth/create-account.ts:53-91 | The transaction succeeds exactly when no missing area name repeats, and otherwise fails with DuplicateKey. On success the member table gains exactly the new member. The area index gains exactly the requested names and keeps its old ids. Old links stay, and every added link belongs to the new member. No other table is written. |
| `AccountCreation.RepeatedMissingAreaRejected` | src/http/routes/auth/create-account.ts:71-80 | A request that names twice an area with no row fails with DuplicateKey, and the member is not created. |
| `AccountCreation.EmptyAreasCreateNothing` | src/http/routes/auth/create-account.ts:64 | An accepted request with an empty area list succeeds without creating an area or a link. |
| `AccountCreation.LinkedToRequestedAreas` | src/http/routes/auth/create-account.ts:74-89 | In a well-formed store, the names of the areas the new member is linked to are exactly the requested names. |
| `AccountCreation.CreatePreservesWellFormed` | src/http/routes/auth/create-account.ts:41-89 | A successful creation keeps the store well-formed. The e-mail is new, created areas get fresh distinct ids, and every link points at an existing member and area. |
| `FormAnswers.FindAthleteForm` | src/http/routes/forms/update-form-answer.ts:41-59 | Returns nothing exactly when no athlete-form of the athlete has a form with the slug. Otherwise it returns such a row. |
| `FormAnswers.CollectAnswers` | src/http/routes/forms/update-form-answer.ts:76-80 | The keys of the built object are exactly the request's question ids. Each id holds the answer of the last entry with that id. |
| `FormAnswers.ResetObservations` | src/http/routes/forms/update-form-answer.ts:65-74 | Each existing listed question gets the observation of its last entry, or none when that entry omits it. Unlisted questions keep their observation. Titles and the set of questions do not change. |
| `FormAnswers.UpdateFormAnswer` | src/http/routes/forms/update-form-answer.ts:41-98 | With no matching athlete-form the result is NotFound "Form not found for athlete" and nothing is written. Otherwise the listed observations are written even if the request then fails. The request fails with MissingRow, leaving answers untouched, exactly when a listed id has no question. On success the form's answer holds exactly the request's ids with the last entry winning, and other answers are unchanged. |
| `FormAnswers.CreatesOrReplacesAnswer` | src/http/routes/forms/update-form-answer.ts:82-98 | A successful request creates exactly one answer row when the form had none and keeps the row count otherwise. The old data is replaced, not merged: an old key the request does not list is gone. |
| `FormAnswers.ShadowedEntryIsIrrelevant` | src/http/routes/forms/update-form-answer.ts:65-80 | Dropping an entry that a later entry for the same question overrides changes neither the stored answer nor any observation. |
| `Threads.ResolveThread` | src/http/routes/athletes/remove-athlete-observation.ts:42-59 | An unknown area name gives NotFound "Area not found". Then a missing thread for the athlete and area gives NotFound "Thread not found for the specified area and athlete". Otherwise the result is the athlete's thread in that area. |
| `ObservationRemoval.RemoveObservation` | src/http/routes/athletes/remove-athlete-observation.ts:42-79 | Area and thread errors pass through. An observation that is missing, belongs to another athlete's thread or to another thread gives NotFound. The caller gets Unauthorized exactly when every NotFound check passes and they are not the author. On success exactly the target observation is deleted and every other observation and table is unchanged. |
| `ObservationRemoval.AthleteCheckIsImplied` | src/http/routes/athletes/remove-athlete-observation.ts:61-71 | With unique thread ids, the check on the observation's thread's athlete adds nothing. The observation is accepted exactly when it exists and lies in the resolved thread. |
| `ObservationUpdate.UpdateObservation` | src/http/routes/athletes/update-athlete-observation.ts:47-82 | Area and thread errors pass through. A missing observation gives NotFound "Observation not found". The caller gets Unauthorized exactly when the path resolves, the observation exists and they are not its author. Success needs nothing more. Only the content of the target observation changes. |
| `ObservationUpdate.UpdateAcceptsWhatRemovalAccepts` | src/http/routes/athletes/update-athlete-observation.ts:66-82 | Whenever removal would succeed, update succeeds too. Whenever removal refuses a non-author, update refuses them as well. |
| `ObservationUpdate.UpdateIgnoresThreadMembership` | src/http/routes/athletes/update-athlete-observation.ts:66-81 | An author's observation that lies outside the path's thread is NotFound for removal, but update still succeeds. |
| `EmailChange.ChangeEmail` | src/http/routes/account/change-email.ts:22-67 | The short-password BadRequest comes exactly when the password has fewer than 6 UTF-16 code units. An e-mail some member uses gives success with nothing written. A missing user gives NotFound "User not found". A wrong password gives BadRequest "Invalid credentials". These are the only failures. An existing user with a free e-mail and a matching password gets the e-mail changed. A changed store differs only in the current user's e-mail, which becomes the requested one. |
| `EmailChange.AstralPasswordChangesEmail` | src/http/routes/account/change-email.ts:24-65 | A password of three characters outside the Basic Multilingual Plane passes the length rule. With a free e-mail, an existing user and a matching password, the e-mail is changed. |
| `EmailChange.OwnEmailBranchIsUnreachable` | src/http/routes/account/change-email.ts:35-53 | The handler equals the same chain without the own-e-mail branch, for every store, even one without unique e-mails. |
| `EmailChange.PasswordUncheckedWhenEmailInUse` | src/http/routes/account/change-email.ts:35-41 | When the e-mail is in use, the outcome does not depend on the password comparison. |
| `EmailChange.ChangePreservesWellFormed` | src/http/routes/account/change-email.ts:35-65 | A successful change keeps the store well-formed; in particular e-mails stay unique. |

## Left out

- Route registration, the authentication middleware and reply sending are not modelled. The current user's id is a parameter.
- Schema validation is modelled only where it decides an outcome: the password length and the body defaults. E-mail format and uuid checks are left out, and the validation error's text is a placeholder because the error-mapping layer is not part of this model.
- Password hashing and comparison are foreign cryptography. They are function parameters (`hash`, `passwordMatches`).
- Generated ids are not computed. The new member's uuid is a parameter that must not be taken already. Area ids come from a counter in the store. The answer row's own id is dropped, because answers are keyed by their athlete-form, which is unique per answer.
- Timestamps (`createdAt`, `updatedAt`) are left out.
- Concurrency is not modelled. The `Promise.all` fan-outs are modelled as sequential writes in request order. This matters only for two entries for the same question in one form-answer request, where the real writes race; the model lets the later one win. Races between a handler's read and its write are left out too, since each transaction is treated as atomic.
- Ids are modelled as unbounded integers. The route schemas coerce observation and question ids with `z.coerce.number()`, which also admits non-integers such as 1.5 and integers too large for the id column. The ORM rejects such an id with a validation error; the model has no such ids and so no such error.
- A form is reduced to its slug on the athlete-form row. Sections and question order play no part in the logic.
- AccountCreation.CreateAccount: the link insert is a set union. A duplicate link is not reported, though without skipped duplicates the database would reject it. Such a link can exist only in a store that breaks `WellFormed`.
- ObservationRemoval.RemoveObservation: an observation whose thread row is missing counts as belonging to no athlete. The schema requires the relation, so this cannot happen in a consistent store.
- The `console.log` calls in the member update, the password-authentication route, the seed script and the environment parsing are not modelled. They are I/O or thin library wrappers with no decision logic of their own.
