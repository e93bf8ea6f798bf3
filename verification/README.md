# User registry: record service and persistence adapter in Dafny

This project models the core of a small browser-side user registry. Users
`{id, nome, email, dataCriacao, dataAtualizacao?}` are kept as one collection
under one key of the host's key-value store. The record service creates, lists,
edits and deletes them. Each operation reads the whole collection, checks its
arguments in a fixed order, and writes the whole collection back.

Modules, one per concern:

- `JsText` (`text.dfy`): the JavaScript white-space class shared by `trim` and
  the `\s` escape, `trim` itself, and lower-casing of ASCII letters.
- `Users` (`users.dfy`): the record, case-insensitive email collision,
  "emails pairwise distinct", "ids unique", and the `findIndex`-style search by id.
- `EmailPattern` (`email.dfy`): the email pattern `^[^\s@]+@[^\s@]+\.[^\s@]+$`. It is
  stated twice. `EmailShape` is a reference predicate read off the pattern.
  `ValidarEmail` is a left-to-right matcher, a seven-state automaton. The two are
  proved equal for every input.
- `Storage` (`storage.dfy`): class `UserStore`. Its one field `slot` is what the
  host holds under the key: `Absent`, `Unparsable`, or `Parsed(users)`. Reads turn
  the first two into the empty collection. Writes either store the collection or
  leave the slot as it was.
- `Crud` (`crud.dfy`): the four operations, as methods over a `UserStore`. The
  source's thrown errors become `Err(...)` values. Its `null` results become `Ok(None)`.

Inputs that come from the host are parameters:

- the id (`Date.now()`) and the timestamp (`new Date().toISOString()`) are `id` and `agora`;
- whether the host refuses a write is `hostRejects`.

A refused write leaves the stored value unchanged. The collection an operation
changed was a local copy and is dropped, so a failed operation never changes
the store.

Points worth knowing about the code:

- The record fields are `id`, `nome`, `email`, `dataCriacao` and `dataAtualizacao`.
- Ids are not checked for uniqueness.
- Edit checks for conflicts against records with a *different id*, not against
  *other records*. With two records sharing an id, that can leave two colliding
  emails (`Crud.SharedIdDefeatsConflictCheck`).

## Model

| member | source | states |
|---|---|---|
| `JsText.Trim` | js/crud.js:29-30 | the result is a slice of the argument, everything cut from either end is white space, the result neither starts nor ends with white space, and a string without white space is returned unchanged |
| `JsText.ToLowerAscii` | js/crud.js:23 | same length; every ASCII capital becomes its lower-case letter (code point plus 32); every other character is unchanged |
| `Users.FindIndexById` | js/crud.js:71-75 | -1 exactly when no record has the id; otherwise the index of the first record with the id |
| `Users.SameEmailMeans` | js/crud.js:23 | two emails collide exactly when they have the same length and, at every position, hold the same character or the same ASCII letter in different case |
| `Users.AppendKeepsDistinct` | js/crud.js:23-34 | appending a record whose email collides with no stored email keeps the emails pairwise distinct |
| `Users.ReplaceKeepsDistinct` | js/crud.js:78-86 | overwriting one slot with a record whose email collides with no other slot keeps the emails pairwise distinct |
| `EmailPattern.ValidarEmail` | js/crud.js:129-131 | true exactly when the email is a nonempty run, '@', a nonempty run, '.', a nonempty run, where no run holds white space or '@' |
| `EmailPattern.RunAccepts` | js/crud.js:130 | from every matcher state, the matcher ends in its accepting state exactly on the inputs that state's part of the pattern accepts |
| `EmailPattern.ValidEmailHasNoSpace` | js/crud.js:130 | a valid email holds no white space |
| `EmailPattern.ValidEmailIsTrimmed` | js/crud.js:16-30 | trimming leaves a valid email unchanged, so the stored email is the one that was checked |
| `EmailPattern.ValidEmailHasOneAt` | js/crud.js:130 | a valid email holds exactly one '@', and it is neither the first nor the last character |
| `Storage.UserStore.ObterUsuarios` | js/storage.js:5-13 | returns the stored collection; a missing key or unparsable data returns the empty collection, and nothing is raised |
| `Storage.UserStore.SalvarUsuarios` | js/storage.js:20-28 | returns true and stores the collection when the host accepts the write; returns false and leaves the store unchanged when it refuses; the next read after a successful write returns what was written |
| `Storage.UserStore.BuscarUsuarioPorId` | js/storage.js:35-38 | a linear scan returns the first stored record with the id, or None exactly when no stored record has it; the store is not modified |
| `Storage.ResaveKeepsContents` | js/storage.js:5-28 | writing back the collection just read leaves what a read returns unchanged |
| `Crud.ValidateInput` | js/crud.js:12-18 | the missing-argument error comes first, when the name or the email is empty as given; then the invalid-email error, when the email does not match the pattern; otherwise no error |
| `Crud.BlankNameAccepted` | js/crud.js:12-29 | every non-empty name made only of white space passes the presence check (with a valid email, validation reports no error), and the name stored is the empty string |
| `Crud.RemoveId` | js/crud.js:111 | no survivor has the id; the length is unchanged exactly when no record had the id, and then the collection is unchanged |
| `Crud.RemoveIdMembers` | js/crud.js:111 | a record survives exactly when it was in the collection and its id differs |
| `Crud.RemoveIdAppend` | js/crud.js:111 | removal distributes over concatenation, so the survivors keep their original order |
| `Crud.RemoveKeepsDistinct` | js/crud.js:106-117 | removing records keeps the emails pairwise distinct |
| `Crud.NothingFoundAfterRemove` | js/crud.js:111-117 | after removal, a search for the id finds nothing |
| `Crud.CreatedKeepsDistinct` | js/crud.js:20-35 | the record create appends keeps the emails pairwise distinct, given a white-space-free email that collides with no stored one |
| `Crud.EditedKeepsDistinct` | js/crud.js:77-93 | the record edit writes keeps the emails pairwise distinct, given distinct emails, unique ids and no collision with a record of another id |
| `Crud.SharedIdDefeatsConflictCheck` | js/crud.js:71-86 | with two records sharing an id, giving the first the second's email passes the conflict check and leaves two colliding emails |
| `Crud.CriarUsuario` | js/crud.js:9-42 | errors in order: missing argument, invalid email, email already stored (in any letter case); every error leaves the store unchanged; on success the new collection is the old one with exactly one record appended, `{id, trimmed name, trimmed email, creation time}`, the result is that record or None when the write is refused, and distinct emails stay distinct |
| `Crud.ListarUsuarios` | js/crud.js:48-50 | returns the stored collection, or the empty one when nothing readable is stored |
| `Crud.EditarUsuario` | js/crud.js:59-99 | errors in order: missing argument, invalid email, id not found, email held by a record with another id; every error leaves the store unchanged; on success only the first slot with the id changes: id and creation time are kept, name, email and update time are replaced, the length and all other slots are unchanged; the result is the rewritten record or None when the write is refused; distinct emails stay distinct when ids are unique |
| `Crud.DeletarUsuario` | js/crud.js:106-122 | not found exactly when no record has the id, leaving the store unchanged; otherwise the result is whether the write succeeded, and a successful write stores the survivors in order, after which a search for the id finds nothing; distinct emails stay distinct |

## Left out

- `localStorage`, `JSON.stringify` and `JSON.parse` are host code. Their effect is the `Slot` value. A stored value that parses to something other than an array of records (the text `null`, say) is not modelled.
- The clock: `Date.now()` and `toISOString()` are the parameters `id` and `agora`. Nothing is claimed about id uniqueness, because the code does not enforce it.
- JsText.ToLowerAscii: folds only the ASCII letters A-Z. `toLowerCase` folds all of Unicode, so two emails that differ only in the case of a non-ASCII letter collide in the source and not in the model.
- Crud.EditarUsuario: the invariant that emails stay distinct is stated only when the stored ids are unique. The source does not hold it otherwise (see `Crud.SharedIdDefeatsConflictCheck`).
- Crud.ValidateInput: the source's `!nome` also rejects `null` and `undefined`. The model takes strings only, so only the empty string is rejected.
- Ids are integers. JavaScript numbers that are not integers, and `NaN`, are not modelled.
- `console.error` logging and the catch-and-rethrow wrappers only log and re-raise. They are left out.
- The presentation layer (`js/ui.js`) and the start-up wiring (`main.js`) are DOM code and are not part of this model. This covers the form, the table, the confirmation dialog, the alert timer, and the create-or-update dispatch on the edit mode.
