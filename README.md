# academia_magia: the admission-request lifecycle, in Dafny

The Magic Academy service keeps two tables. `Application` holds admission
requests ("solicitudes"). `Grimorio` holds the artifacts granted when a
request is approved. This project models the controllers that change and
read those tables:

- create, edit and delete a request;
- approve or reject it;
- list the requests and the granted Grimorios.

It also models the request schema they validate against, the weighted clover
draw that picks a Grimorio, and the two record types with their `serialize`
views.

Modules, one per concern of the source:

- `Schema` (schema.dfy): the request schema as a predicate over a JSON
  payload. Both character classes use the range `A-z` literally (codes 65 to
  122), so they also admit `[ \ ] ^ _` and the backtick. The `^…$` pattern
  runs under a regular-expression search, and there `$` also matches before
  one final newline. An integral float such as `25.0` is an integer to the
  validator and is stored as the integer it denotes.
- `Models` (models.py): the `Application` and `Grimorio` records, the status
  values (default `'Pending'`), the column widths and the two `serialize`
  dictionaries.
- `Clovers` (clovers.dfy): the clover weight table and the weighted pick.
  The weights 4, 3, 2, 1 and 0.5 are doubled to the integers 8, 6, 4, 2 and
  1. A draw `r` in `[0, 21)` selects the first clover whose cumulative weight
  exceeds `r`, so no floating point is involved.
- `Lifecycle` (lifecycle.dfy): the tables as a value `DB`, and each
  controller as a function from a database to a reply and a new database.
  The reply's `Code()` is the HTTP status. This module also holds the
  invariant (unique identities, ascending keys, schema-conforming records),
  the "a decided request is frozen" relation, and the lemmas.
- `Registry` (registry.dfy): the database as a `Store` object whose
  controller methods update the tables in place. Each method is proved to
  keep the invariant and to end in exactly the reply and state that
  `Lifecycle` gives. The assignment listing is a loop proved against its
  specification function.

Every write is checked against the lookup the routes perform first: an
unknown key answers 404.

Behaviour of the code kept as written:

- Delete does not remove the request's Grimorio. `delete_application` looks
  for a Grimorio whose `assignment` equals the request's integer key, but
  `assign_grimorio` stores the request's identity there. The storage compares
  the text column with the key's decimal text, so a Grimorio is removed only
  when an identity happens to be that text.
- A request can be approved, deleted, submitted again and approved again.
  Its identity then holds two Grimorios. This is proved in
  `Lifecycle.DeleteLeavesGrimorios` and
  `Lifecycle.ReapprovalDuplicatesGrimorio`.
- Edit validates `identificacion` and rejects it when another request holds
  it, but never writes it: the identity of a request never changes.

## Model

| member | source | states |
|---|---|---|
| Schema.ValidPayload | app/controllers.py:7-17 | an accepted payload has all five fields, names of 1 to 20 characters, an identity of 1 to 10, a numeric age and one of the six affinities; which strings and ages pass is stated by `Schema.PatternCases` and `Schema.AgeOf` |
| Schema.PatternCases | app/controllers.py:7-17 | the schema's edges: `_` is a name character through the `A-z` range, one trailing newline passes the anchor, a digit or `-` is rejected, names hold 1 to 20 characters and identities at most 10, `25.0` is an age while `25.5` and `100` are not |
| Schema.NameTextChars | app/controllers.py:10-11 | every character of an accepted name is in `[a-zA-zñÑ]`, except possibly one final newline |
| Schema.AgeOf | app/controllers.py:13 | the stored age of an accepted `edad` lies in 0..99 and denotes the same number as the payload's value |
| Models.ParseStatus | app/models.py:27 | the status text read back names exactly one status value, and no other text is a status |
| Models.WellFormedFitsColumns | app/models.py:21-25 | a record built from an accepted payload fits the declared widths: name and last name at most 20, identity at most 10 |
| Models.SerializeApplication | app/models.py:29-38 | the dictionary has exactly the keys id, name, lastname, identity, age, magical_affinity and status, has no `created_at`, and reads back to the same record |
| Models.SerializeGrimorio | app/models.py:55-61 | the dictionary has exactly the keys id, clover_type, rarity and assignment, and reads back to the same Grimorio |
| Clovers.TableFacts | app/utils.py:6-12 | five clovers with weights totalling 21, all positive, strictly decreasing from one leaf to five leaves, distinct names |
| Clovers.CumulativeMonotone | app/utils.py:19-22 | cumulative weights never decrease along the table |
| Clovers.PickIndex | app/utils.py:19-22 | the draw selects a table index, and a draw below the total lies inside the selected clover's cumulative interval |
| Clovers.PickFrom | app/utils.py:19-22 | the search from a bucket whose start the draw has reached ends at a bucket whose interval holds the draw |
| Clovers.PickIndexUnique | app/utils.py:19-22 | a draw below the total selects a clover if and only if it lies in that clover's interval |
| Clovers.Pick | app/utils.py:19-22 | the chosen name is always one of the table's clover names |
| Clovers.Interval | app/utils.py:19-22 | the set of draws `lo..hi-1`, with `hi - lo` members |
| Clovers.BucketWidth | app/utils.py:6-12 | each clover is selected by exactly as many of the 21 draws as its weight |
| Clovers.EveryCloverSelectable | app/utils.py:4-12 | every clover is picked by some draw, and each clover gets strictly fewer draws than the one before it |
| Lifecycle.FirstIndex | app/controllers.py:29 | the first element that satisfies the test, or none when no element does, as a query's `.first()` returns |
| Lifecycle.FindById | app/routes.py:151-153 | the lookup returns a record with the requested key, or none when no record has it |
| Lifecycle.FindByIdentity | app/controllers.py:29 | the first record holding the identity, or none when no record holds it |
| Lifecycle.FindByAssignment | app/controllers.py:84 | the first Grimorio with the given `assignment`, or none |
| Lifecycle.DecimalText | app/controllers.py:84 | the integer key as the storage compares it with a text column: a non-empty string of digits, without a leading zero, whose decimal value is the key |
| Lifecycle.ApplicationsInfo | app/controllers.py:125-138 | one dictionary per stored request, in storage order, each reading back to that request |
| Lifecycle.AssignmentsOf | app/controllers.py:146-165 | the listing never has more rows than there are Grimorios |
| Lifecycle.Reply.Code | app/controllers.py:31-110 | the codes the controllers return (lines 31, 38, 41, 57, 63, 104, 108, 110): every reply is sent with 200, 201, 400, 404 or 409; 200 exactly for an edit, a delete, an approval or a rejection, 201 exactly for a create, 404 exactly for an unknown key (routes.py:153) and 409 exactly for a clashing identity |
| Lifecycle.Create | app/controllers.py:19-43 | the reply is 201, 400 or 409; only a 201 changes the tables, by appending one record with the next key and status `'Pending'` after the unchanged earlier ones; the Grimorios are never touched (`Lifecycle.CreateOutcome` gives each reply's exact condition) |
| Lifecycle.Update | app/controllers.py:45-75 | the reply is 404, 400, 409 or 200; only a 200 changes anything; no record gains or loses a place, and every record keeps its key and identity; the Grimorios and the next key are untouched (`Lifecycle.UpdateOutcome` gives each reply's exact condition) |
| Lifecycle.Delete | app/controllers.py:77-93 | the reply is 200 or 404; a 404 changes nothing; a 200 removes one request and at most one Grimorio; the keys are untouched (`Lifecycle.DeleteOutcome` says which records go) |
| Lifecycle.Assign | app/utils.py:14-27 | the name is a clover of the table; the requests are untouched; exactly one Grimorio is appended after the unchanged earlier ones, keyed by the request's identity (`Lifecycle.AssignOutcome` gives its fields) |
| Lifecycle.SetStatus | app/controllers.py:95-123 | the reply is 200, 400 or 404, and only a 200 changes the tables; no record gains or loses a place or changes key or identity; the Grimorio table grows by one exactly on approval (`Lifecycle.SetStatusOutcome` gives each reply's exact condition) |
| Lifecycle.EmptyInv | app/models.py:20-27 | a new, empty database satisfies the invariant |
| Lifecycle.CreateOutcome | app/controllers.py:19-43 | 400 if and only if the payload fails the schema; 409 if and only if it passes and its identity is stored; 201 otherwise; a 201 appends exactly one record with the payload's fields, the next key and status `'Pending'` and leaves the Grimorios alone; 400 and 409 change nothing |
| Lifecycle.CreatePreserves | app/controllers.py:29-38 | create keeps identities unique and keys ascending, and leaves every decided request as it was |
| Lifecycle.FindByIdExact | app/models.py:20 | under the invariant, looking up a stored record's key finds that record |
| Lifecycle.UpdateOutcome | app/controllers.py:45-75 | 404 if and only if no record has the key; for the keyed record: 400 if and only if the schema fails; then 400 if and only if it is not pending; 409 if and only if the new identity differs from the record's and is stored; 200 if and only if the payload is valid, the record is pending and the identity does not clash; a 200 overwrites only name, last name, age and affinity, keeping identity, status, the other records and the Grimorios; anything else changes nothing |
| Lifecycle.ReplaceKeeps | app/controllers.py:65-69 | replacing a pending record by a conforming one with the same key and identity keeps the invariant and every decided request |
| Lifecycle.FrozenRefl | app/controllers.py:55-57 | an operation that changes nothing keeps every decided request |
| Lifecycle.UpdatePreserves | app/controllers.py:45-75 | update keeps the invariant and never touches a decided request |
| Lifecycle.AssignedToConcat | app/utils.py:24-25 | the Grimorio count of an identity over two concatenated tables is the sum of the two counts |
| Lifecycle.AssignedToRemove | app/controllers.py:84-86 | removing one Grimorio lowers an identity's count by one exactly when that Grimorio was keyed by it |
| Lifecycle.RemoveKeeps | app/controllers.py:86-88 | removing a request, with any valid Grimorio table, keeps the invariant and every remaining decided request |
| Lifecycle.RemoveGrimorioKeeps | app/controllers.py:84-86 | removing a Grimorio keeps the Grimorio keys ascending |
| Lifecycle.DeleteOutcome | app/controllers.py:77-93 | 404 if and only if no record has the key, changing nothing; otherwise exactly that request is removed, and of the Grimorios only the first whose `assignment` is the key in decimal, none when there is none |
| Lifecycle.DeletePreserves | app/controllers.py:77-93 | delete keeps the invariant and every remaining decided request |
| Lifecycle.DeleteCounts | app/controllers.py:84-89 | delete removes at most one Grimorio, and none keyed by anything other than the record's key in decimal |
| Lifecycle.DeleteLeavesGrimorios | app/controllers.py:84-86 | deleting a request whose identity has a non-digit removes no Grimorio of that identity |
| Lifecycle.AssignOutcome | app/utils.py:14-27 | exactly one Grimorio is appended, its clover type and rarity both the chosen name (a clover of the table) and its assignment the request's identity; requests and earlier Grimorios are unchanged; that identity's count grows by one |
| Lifecycle.AssignTwice | app/utils.py:14-27 | no check for an earlier assignment: assigning twice gives the identity two more Grimorios |
| Lifecycle.AssignPreserves | app/utils.py:24-26 | assignment keeps the invariant and every decided request |
| Lifecycle.SetStatusOutcome | app/controllers.py:95-123 | 404 if and only if no record has the key; for the keyed record: 400 if and only if `estatus` is missing or not one of the two values, checked first; then 400 if and only if it is already rejected, or already approved; approval if and only if `'aprobada'` on a pending request, appending one Grimorio named for the returned clover and setting status `'aprobada'`; rejection if and only if `'rechazada'` on a pending request, setting `'rechazada'` with no Grimorio; every non-200 reply changes nothing |
| Lifecycle.SetStatusPreserves | app/controllers.py:112-120 | a status change keeps the invariant and never touches a decided request |
| Lifecycle.TerminalIsFinal | app/controllers.py:55-57 | on a request that is approved or rejected, both a status change and an edit answer 400 and change nothing |
| Lifecycle.AssignmentsAppend | app/controllers.py:150-161 | the listing of two concatenated Grimorio tables is the concatenation of their listings, so Grimorio order is kept |
| Lifecycle.AssignmentsSkipUnmatched | app/controllers.py:162-163 | a Grimorio whose identity matches no request contributes nothing to the listing |
| Lifecycle.AssignmentsAllMatched | app/controllers.py:152-161 | when every Grimorio matches a request, the listing has one row per Grimorio, each with that request's fields and the Grimorio's rarity |
| Lifecycle.AssignmentsTrace | app/controllers.py:152-161 | every row is some Grimorio joined with the request whose identity it is keyed by |
| Lifecycle.CreateThenApprove | app/controllers.py:33-38 | creating a request with a fresh identity and then approving it appends the approved record and exactly one Grimorio for its identity, keeping the invariant |
| Lifecycle.ReapprovalDuplicatesGrimorio | app/controllers.py:84-89 | approve, delete, re-create and re-approve a request whose identity has a letter: the delete leaves the request table as it was before, and the identity ends with two more Grimorios |
| Lifecycle.RouteScenarioSubmit | app/controllers.py:19-75 | the first half of the route tests' scenario from an empty database, each step applied to the previous step's tables: create is `Created` (201) and stores one pending record with the payload's fields, a repeated create is `DuplicateIdentity` (409) and changes nothing, and the edit is `Updated` (200) with age 30 and affinity Agua |
| Lifecycle.RouteScenarioDecide | app/controllers.py:77-168 | the second half, from the edited request: approval is `Approved` (200) with the drawn clover, adding one Grimorio for the identity, a later edit is `NotPending` (400) and changes nothing, the listing is one row with the edited fields and the clover, and delete is `Deleted` (200) leaving no request |
| Registry.Store.constructor | app/models.py:20-27 | a new store is empty, with both keys starting at 1, and satisfies the invariant |
| Registry.Store.CreateApplication | app/controllers.py:19-43 | the reply and the new tables are exactly `Lifecycle.Create`'s, and the invariant is kept |
| Registry.Store.UpdateApplication | app/controllers.py:45-75 | the reply and the new tables are exactly `Lifecycle.Update`'s, and the invariant is kept |
| Registry.Store.DeleteApplication | app/controllers.py:77-93 | the reply and the new tables are exactly `Lifecycle.Delete`'s, and the invariant is kept |
| Registry.Store.AssignGrimorio | app/utils.py:14-27 | the returned name and the new tables are exactly `Lifecycle.Assign`'s, and the invariant is kept |
| Registry.Store.UpdateApplicationStatus | app/controllers.py:95-123 | the reply and the new tables are exactly `Lifecycle.SetStatus`'s, and the invariant is kept |
| Registry.Store.GetAssignmentsInfo | app/controllers.py:140-168 | the loop over the Grimorios returns exactly `Lifecycle.AssignmentsOf` of the current tables |

## Left out

- HTTP: routing, request parsing, `jsonify` and the reply messages. A reply is a tag with its status code.
- The catch-all `except Exception` branches that answer 500, and the session's add, delete and commit mechanics. These are storage faults with no sequential counterpart.
- The separate commit inside `assign_grimorio`, before the status is written. The two writes are one step here.
- `created_at`: it is a wall-clock timestamp.
- The random number generator. The draw is an input `r`, the pick is exact over the doubled integer weights, and the statistics of the library's generator are not modelled. A draw of 21 or more gets the last clover, as the library's bounded search does.
- Request bodies that are not JSON objects. Create and edit answer 400 for such a body, since the schema requires an object, but `Payload` is always an object and cannot express one. A status change on such a body (null, a number, or a string containing "estatus") raises inside the `estatus` check and answers 500; that 500 is left out with the other 500 branches.
- The logging `print` calls of `assign_grimorio` (utils.py:18) and of the assignment listing for an unmatched Grimorio (controllers.py:163). They change no state and no reply.
- Key reuse: a new request always gets the next unused key. The storage may hand out a deleted largest key again.
- Edit sends `data.get(...)` with a default. The schema already requires every field, so the defaults never apply and are not modelled.
- `get_applications_info` returns an empty list when the query result is `None`. A query result is never `None`, so that branch is not modelled.
- The foreign-key declaration on `Grimorio.assignment` and the `Integer` type declared for `rarity`. The storage enforces neither, so `rarity` holds the clover name as text.
- The duplicate copy of the schema in app/schemas.py, which nothing imports.
- Lifecycle.AssignmentsOf: its own contract states only the length bound. The order, the join and the skipping are stated by the `Assignments*` lemmas.
- Clovers.Pick: its own contract states only that the name is a clover of the table. Which clover a draw selects is stated by `Clovers.PickIndexUnique` and `Clovers.BucketWidth`.
