# Patent-application tracker: response-text endpoints and application sagas

This project is a Dafny model of two pieces of a patent-prosecution tracking application.

- **`ResponseRouter`** (`response_router.dfy`) covers the server's `response_text` endpoints:
  - `GET /by_office_action/:officeActionId`
  - `POST /add`
  - `PUT /edit/:responseId`
  - `DELETE /delete/:responseId`

  Each handler runs a single SQL statement, and that statement contains its own authorization check. The check is either an `EXISTS` join chain `application → office_action → issue` or the caller's `is_admin` flag.

  Each handler is a function of the database state (the four tables as sequences of rows, plus the serial counter for `response_text.id`) and the request. The GET handler returns only the HTTP reply and leaves the state alone. The POST, PUT and DELETE handlers return the new state and the reply. A boolean `fault` stands for a statement that raises an error. The reply is then 500 and no table changes. A failed insert whose row was already formed has still used up one serial value.
- **`ApplicationSaga`** (`application_saga.dfy`) covers the browser's redux-saga workers for applications:
  - `fetchApplications`
  - `fetchApplication`
  - `postApplication`
  - `updateApplication`
  - `deleteApplication`

  Each worker is a method. It takes the outcome of its single HTTP call (the response data, or a failure) and returns the effects it yields, in order: the call, then any dispatch. `moment(x).format('L')` is the parameter `fmt`, and nothing is assumed about it.
  - `fetchApplications` reformats the records of the response array in place, in a loop over an array.
  - `fetchApplication` reformats element 0 in place.

The row filters of the SQL statements are EXISTS-style predicates (`Matches`, `IssueOwnedBy`, `OwnsSomeIssue`, `RowOwnerGate`). `ORDER BY id` is an insertion sort on `id`. `WellFormed` states the database's key facts: `response_text.id` and `issue.id` are unique, and the serial counter is above every stored id. It is a precondition only of the lemmas that need it.

## Model

| member | source | states |
|---|---|---|
| `ResponseRouter.List` | server/routes/response.router.js:6-31 | On a fault the reply is 500. Otherwise it is 200 with rows sorted by `id`. A row is listed iff it is stored and matches the caller's query: for an admin, its issue is on the office action; for anyone else, the whole chain is on the office action and the application's `user_id` is the caller's id. |
| `ResponseRouter.Select` | server/routes/response.router.js:11-21 | The WHERE filter keeps exactly the stored rows that match the query. |
| `ResponseRouter.SortById` | server/routes/response.router.js:14 | `ORDER BY id` returns a permutation of its input, ascending by `id`. |
| `ResponseRouter.InsertSorted` | server/routes/response.router.js:14 | Inserting a row into an id-sorted sequence keeps it sorted. |
| `ResponseRouter.SelectSorted` | server/routes/response.router.js:17-22 | Filtering an id-sorted sequence keeps it sorted. |
| `ResponseRouter.SelectSort` | server/routes/response.router.js:9-22 | Filtering then sorting gives the same sequence as sorting then filtering. |
| `ResponseRouter.SelectOwnedWithinAdmin` | server/routes/response.router.js:11-21 | Every row the non-admin query matches is matched by the admin query, so the owner filter applied to the admin selection gives the owner selection. |
| `ResponseRouter.OwnerListFiltersAdminList` | server/routes/response.router.js:9-22 | A non-admin's list is the admin list for the same office action, restricted to the caller's rows, in the same order. |
| `ResponseRouter.OwnerListMembership` | server/routes/response.router.js:17-21 | With unique issue ids, a row is on a non-admin's list iff its issue is on the office action and the caller owns that issue's application. |
| `ResponseRouter.ListStrictlyAscending` | server/routes/response.router.js:14-22 | With unique `response_text` ids, every list is strictly ascending by `id`. |
| `ResponseRouter.UniqueIdsSelect` | server/routes/response.router.js:11-21 | Filtering keeps ids unique. |
| `ResponseRouter.UniqueIdsSort` | server/routes/response.router.js:14 | Sorting keeps ids unique. |
| `ResponseRouter.Add` | server/routes/response.router.js:34-52 | On a fault: 500, and no table changes. Otherwise 201. Existing rows and the other tables stay unchanged. Exactly one row is appended iff the caller is admin or owns the application reached from the body's `issue_id`. That row carries the body's `issue_id` and `text` and the next serial id. The serial counter advances by one exactly when the WHERE clause forms the row, whether or not the insert then faults. When the WHERE clause holds no row, the whole database is unchanged. |
| `ResponseRouter.AddPreservesWellFormed` | server/routes/response.router.js:35-43 | An insert keeps `response_text.id` unique and below the serial counter. |
| `ResponseRouter.Edit` | server/routes/response.router.js:54-79 | On a fault: 500, no change. Otherwise 201. Only the `response_text` table can change. Ids and length are kept, and every row whose id is not `responseId` is unchanged. |
| `ResponseRouter.EditMissingIdNoChange` | server/routes/response.router.js:56-58 | Editing an id that no row has changes nothing and still answers 201. |
| `ResponseRouter.EditGateIgnoresRowChain` | server/routes/response.router.js:59-64 | The row with the edited id gets the body's `issue_id` and `text` exactly when the caller is admin or owns ANY issue. Neither the row's own chain nor the new `issue_id` is consulted. |
| `ResponseRouter.EditPreservesWellFormed` | server/routes/response.router.js:57 | An edit keeps ids unique and below the serial counter. |
| `ResponseRouter.EditBypassesOwnership` | server/routes/response.router.js:59-64 | On a concrete well-formed database, user 1 does not own row 5's issue. A non-admin edit by user 1 still overwrites row 5. |
| `ResponseRouter.EditOwnRow` | server/routes/response.router.js:56-64 | Corrected edit, gated on the edited row's own chain: 500/no change on a fault, otherwise 201. Only rows with the edited id can change. |
| `ResponseRouter.EditOwnRowRespectsOwnership` | server/routes/response.router.js:59-64 | With the corrected gate, a non-admin changes row `k` iff they own the application of that row's current issue. |
| `ResponseRouter.EditOwnRowBlocksBypass` | server/routes/response.router.js:59-64 | On the counterexample database, the corrected edit leaves everything unchanged. |
| `ResponseRouter.RemoveId` | server/routes/response.router.js:83-84 | Deleting by id keeps exactly the rows with another id. If no row has the id, nothing changes. |
| `ResponseRouter.RemoveIdAt` | server/routes/response.router.js:83-84 | With unique ids, deleting row `k`'s id removes exactly row `k` and keeps the order of the rest. |
| `ResponseRouter.RemoveIdKeepsUnique` | server/routes/response.router.js:83-84 | Removing rows keeps ids unique. |
| `ResponseRouter.Delete` | server/routes/response.router.js:81-104 | On a fault: 500, no change. Otherwise 201. Only rows with the given id can go. They go iff the gate holds: the caller is admin, or a stored row with that id hangs off an issue the caller owns. When the gate fails, nothing changes. |
| `ResponseRouter.DeleteRespectsOwnership` | server/routes/response.router.js:82-91 | With unique ids, deleting row `k` removes exactly that row iff the caller is admin or owns the application of that row's own issue. Otherwise the table is unchanged. |
| `ResponseRouter.DeleteIdempotent` | server/routes/response.router.js:83-98 | Repeating a delete changes nothing and still answers 201. |
| `ResponseRouter.DeletePreservesWellFormed` | server/routes/response.router.js:82-91 | A delete keeps the key facts. |
| `ApplicationSaga.PostBodyExtendsUpdateBody` | src/redux/sagas/applicationSaga.js:92-105 | For any payload, the post body has exactly the update body's properties plus `confirmation_number`, and the shared properties carry the same values. The update body (lines 135-147) has no `confirmation_number`. |
| `ApplicationSaga.FormatDatesReformats` | src/redux/sagas/applicationSaga.js:21-27 | Consecutive `x.f = moment(x.f).format('L')` assignments over distinct fields replace exactly those fields by the formatted old value. Every other property is unchanged. |
| `ApplicationSaga.FetchApplicationList` | src/redux/sagas/applicationSaga.js:13-38 | GETs `api/application/status`. On failure it dispatches nothing. On success it dispatches `SET_APPLICATIONS` once with a list of the same length and order, each record with exactly its five date fields reformatted. |
| `ApplicationSaga.FetchApplication` | src/redux/sagas/applicationSaga.js:43-69 | GETs `/api/application/<id>`. On failure or an empty array it dispatches nothing. Otherwise it dispatches `SET_APPLICATION` with element 0, with only `filed_date`, `last_checked_date` and `status_date` reformatted; `response_sent_date` and `uspto_mailing_date` stay raw. |
| `ApplicationSaga.PostApplication` | src/redux/sagas/applicationSaga.js:72-112 | POSTs to `/api/application/add` a body of exactly the twelve destructured properties, `confirmation_number` included. It makes exactly one request and dispatches `FETCH_APPLICATIONS` once, after it, iff it succeeded, so the worker yields two effects on success and one on failure. |
| `ApplicationSaga.UpdateApplication` | src/redux/sagas/applicationSaga.js:115-156 | PUTs to `/api/application/edit/<payload.id>` a body of exactly eleven properties, without `id` or `confirmation_number`. It makes exactly one request and dispatches `FETCH_APPLICATIONS` once, after it, iff it succeeded, so the worker yields two effects on success and one on failure. |
| `ApplicationSaga.DeleteApplication` | src/redux/sagas/applicationSaga.js:159-175 | DELETEs `api/application/delete/<payload>`. It makes exactly one request and dispatches `FETCH_APPLICATIONS` once, after it, iff it succeeded, so the worker yields two effects on success and one on failure. |

## Left out

- `takeLatest` latest-wins scheduling (src/redux/sagas/applicationSaga.js:178-189) is left out: it concerns concurrency and cancellation between worker runs. Each worker is modelled as one run.
- `moment` is uninterpreted (`fmt`). Its locale-dependent `'L'` output and its handling of null, missing or invalid dates are library behaviour.
- Axios, the Express router, the `rejectUnauthenticated` middleware, the connection pool and `console.error` logging are left out. Only the request, its outcome and the reply status are modelled. The caller is always authenticated, so `req.user` is always present.
- SQL text and parameter binding are left out, including the interpolation of `req.user.id` into the non-admin GET query. That interpolation is modelled as equality on the user id. Path parameters are integers.
- Foreign-key and other constraint checks by the database are covered only as the `fault` input: 500 and no table changes. Examples are an admin inserting with a non-existent `issue_id`, or an edit pointing a row at one.
- `ResponseRouter.Add`: a fault is taken to happen after the SELECT has formed its row, as a constraint violation does, so the serial value it drew stays used. A failure before the statement runs at all (a lost connection) would leave the counter alone; the model does not tell the two apart.
- Joins are modelled as EXISTS filters. They equal SQL's join output whenever the parent tables' ids are unique (they are primary keys). The duplicate rows a join would produce on duplicate parent ids are not modelled.
- The order of rows with equal `id` under `ORDER BY id` is unspecified in SQL. The model fixes one order. `ListStrictlyAscending` shows that no ties occur on a well-formed database.
- The handlers change the stored `response_text` table, but they are modelled as state-transition functions (old state → new state and reply), not as methods on a database object. Each handler is one atomic statement with no intermediate state. Concurrency between requests is not modelled.
- Values are JSON scalars: `undefined`, `null`, booleans, integers, strings. Floating-point numbers and nested objects are not modelled. Records are values in the worker's array, so aliasing between JS objects is not captured (records parsed from one response are distinct objects anyway).
- A few JS failure paths are not modelled: a response whose `data` is not an array, a `null` element, and a non-object action payload (destructuring it would throw and be caught).
- `axios` drops `undefined`-valued keys when it serialises a body. The model keeps the object literal exactly as the worker builds it.
- server/routes/status.router.js is not part of this model: it is a single unconditional `SELECT * ... ORDER BY id`.
- In `fetchApplication`, the source reads the three dates before writing any of them. The model formats them one after another. Because the three fields are distinct, the two orders have the same effect.
- `fetchApplication` reformats only `filed_date`, `last_checked_date` and `status_date`; `response_sent_date` and `uspto_mailing_date` stay raw.
- The edit statement's gate is not tied to the edited row's chain (see Findings); `Edit` models the statement as written.
- A missing or null `issue_id` or `text` in the request body is not modelled: SQL binds it as NULL, and `Body` has only integer and string fields.

## Findings

| source | as written | input that shows it | evidently intended | confidence | as-written member | corrected member |
|---|---|---|---|---|---|---|
| server/routes/response.router.js:59-64 | The `EXISTS` of the edit statement is correlated only through `response_text.id = $5`, which the outer WHERE already fixes. The gate is therefore "caller owns any application with an office action with an issue". | User 1 owns application 1 → office action 1 → issue 1. Row 5 belongs to issue 2 of application 2, owned by user 2. User 1 (not admin) sends `PUT /edit/5` with `{issue_id: 2, text: "overwritten"}`, and row 5 is overwritten. | Gate the update on the edited row's own chain, as the delete statement does through its inner `response_text` join. | high (not executed) | `ResponseRouter.EditBypassesOwnership` | `ResponseRouter.EditOwnRowRespectsOwnership` |
