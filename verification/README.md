# Helpdesk ticket server — a Dafny model

The server is an HTTP backend for a helpdesk. Plain users (`usuario`) open
tickets and comment on them. Technicians (`tecnico`) move tickets through their
lifecycle, from `pendiente` to `en-progreso` to `resuelto`. Technicians also
assign tickets, read statistics and register new accounts. All state lives in
three SQLite tables: `usuarios`, `tickets` and `comentarios`.

This project models the route handlers that read and write those tables. Each
handler is a pure function. It takes a store (the three tables plus their
AUTOINCREMENT counters), the authenticated caller (the `id` and `rol` claims of
the token) and the request. It returns either the new store or an error.

- `schema.dfy` (`Schema`): the records, the CHECK-constrained enumerations with
  their stored names, the error answers, and the store invariant. The invariant
  covers ids matching their keys and lying below the counters and UNIQUE
  usernames, which the database guarantees; timestamps in creation order,
  which hold while the clock runs forward; and comments referring to existing
  tickets, which the handlers keep: foreign keys are not enforced, but a
  comment is inserted only after its ticket is found and no route deletes a
  ticket.
- `table.dfy` (`Table`): a full scan of the `tickets` table. It also ties
  per-criterion counts over a scan to the set of matching ids.
- `sorting.dfy` (`Sorting`): orders on an integer key. ORDER BY is an
  insertion sort by the key that keeps the multiset of rows. Rows in strictly
  ascending order of a unique key hold no row twice.
- `tickets.dfy` (`Tickets`): create, read one, list with filters, partial
  update, and assign.
- `comments.dfy` (`Comments`): add a comment, and the comment list of one ticket.
- `registration.dfy` (`Registration`): the checks and the insert of account
  registration.
- `statistics.dfy` (`Statistics`): the counts by estado, and the counts by tipo.
- `lifecycle.dfy` (`Lifecycle`): the writing handlers as steps of a state
  machine, with properties that hold along any sequence of requests.
- `scenarios.dfy` (`Scenarios`): one ticket's life from an empty database.

Modelling conventions:

- An empty string stands for a body or query field that is absent or falsy.
  This matches the source's `if (x)` / `!x` tests.
- `Option` stands for a value that may be SQL NULL, or, in a list query and
  in an assignment, for a number that was not given (`None`).
- In an update, `asignadoA: Option<Option<int>>` tells the absent key (`None`)
  apart from an explicit `null` (`Some(None)`).
- Timestamps are readings of a natural-number clock. The handler receives the
  reading as the parameter `now`, standing for `CURRENT_TIMESTAMP`.

## Model

| member | source | states |
|---|---|---|
| Schema.ParseRole | server.js:39 | a text is read as a role exactly when it is one of the two names the CHECK on `rol` admits, and the role read back has that name |
| Schema.ParseEstado | server.js:52 | a text is read as an estado exactly when the CHECK on `estado` admits it, and the value read back is stored under that text |
| Schema.ParsePrioridad | server.js:53 | a text is read as a prioridad exactly when the CHECK on `prioridad` admits it, and the value read back is stored under that text |
| Schema.NamesRoundTrip | server.js:39-53 | every role, estado and prioridad is stored under a name that reads back as the same value |
| Schema.Empty | server.js:34-70 | the freshly created tables, with every AUTOINCREMENT counter at 1, satisfy the store invariant |
| Table.CountRowsIsCardinality | server.js:426-432 | counting the rows of a full scan that satisfy a criterion gives the number of ticket ids whose row satisfies it |
| Table.EstadoCountsPartition | server.js:428-431 | the three per-estado counts of any scan add up to the number of rows scanned |
| Sorting.Sort | server.js:223 | the sorted rows are ordered by the key, largest first, and are a permutation of the input rows |
| Tickets.Create | server.js:281-301 | the request fails, with 400, exactly when one of tipo, titulo, descripcion, ubicacion is missing; otherwise a new row with the next AUTOINCREMENT id, owned by the caller, pending, medium priority, unassigned, unresolved, created and updated now; the id was not yet in use; nothing else changes |
| Tickets.Get | server.js:234-278 | NotFound exactly when the id is missing; Forbidden exactly when it exists and a plain user is not its owner; otherwise the stored row with exactly its comments, each as often as the table holds it, oldest first |
| Tickets.Filter | server.js:197-221 | keeps exactly the rows that pass every given filter and, for a plain user, belong to that user |
| Tickets.List | server.js:180-231 | every listed row is a stored row that the filters and the owner restriction select; every such stored row is listed; newest first; no more rows than the table holds |
| Tickets.ListedOnce | server.js:183-193 | when every row is stored under its own id, the list holds each selected row exactly once, as a query over the table does |
| Tickets.Update | server.js:304-350 | Forbidden exactly for non-technicians; then NotFound exactly for a missing id; then a 500 exactly when a given estado or prioridad is outside its CHECK; on success estado, prioridad and asignadoA change exactly when given; fecha_resolucion becomes now exactly when estado is `resuelto` and is otherwise kept; fecha_actualizacion is now; identity fields and all other rows and tables are unchanged |
| Tickets.Assign | server.js:353-376 | Forbidden exactly for non-technicians; then NotFound exactly for a missing id; on success the ticket goes to the given technician, or to the caller when tecnico_id is absent or 0; estado becomes en-progreso whatever it was; prioridad and fecha_resolucion are kept; fecha_actualizacion is now; nothing else changes |
| Tickets.CreatedTicketReadsBack | server.js:253-301 | the creator can read back the ticket just created: it is theirs, pending, with no comments |
| Tickets.ListedTicketsAreReadable | server.js:218-221 | every ticket in a caller's list can also be opened by that caller and reads back as the same row |
| Tickets.UsersSeeOnlyTheirOwn | server.js:218-221 | a plain user's list holds only their own tickets whatever the query asks, and any ticket they can open is their own |
| Tickets.UpdateIsIdempotent | server.js:315-337 | applying the same update twice at the same instant leaves the store as applying it once |
| Tickets.ResolutionIsNeverCleared | server.js:330-334 | once a ticket has a resolution time, every later successful update or assignment keeps one |
| Tickets.CreatePreservesValid | server.js:288-291 | creating a ticket keeps the store invariant and leaves no timestamp after now |
| Tickets.UpdatePreservesValid | server.js:337-339 | a successful update keeps the store invariant and leaves no timestamp after now |
| Tickets.AssignPreservesValid | server.js:361-365 | a successful assignment keeps the store invariant and leaves no timestamp after now |
| Comments.OfTicket | server.js:267 | keeps exactly the comments of the given ticket, each as often as the table holds it |
| Comments.CommentsOf | server.js:263-268 | exactly the comments of the ticket, each as often as the table holds it, ordered by creation time ascending |
| Comments.CommentListedOnce | server.js:263-268 | in a consistent store no comment appears twice in a ticket's comment list, since comment ids are unique |
| Comments.AddComment | server.js:381-416 | an empty text is refused with 400 before the ticket is looked up; a missing ticket gives NotFound; otherwise one comment with the next id, the caller as author, the text and now is appended, the ticket's fecha_actualizacion becomes now, and nothing else changes |
| Comments.AddedCommentIsListed | server.js:399-402 | an accepted comment appears in its ticket's comment list afterwards |
| Comments.AddCommentPreservesValid | server.js:399-408 | adding a comment keeps the store invariant, including increasing comment ids that refer to existing tickets |
| Registration.Register | server.js:146-175 | Forbidden exactly for non-technicians; then 400 exactly when username, password, nombre or rol is missing; then a 500 exactly when rol is outside its CHECK; then Duplicate exactly when the username is taken; no other error, so a fresh registration succeeds, with an active account with the next id and the given fields, and nothing else changes |
| Registration.RegisterPreservesValid | server.js:159-160 | registering keeps the store invariant, in particular the uniqueness of usernames |
| Registration.FreshRegistrationSucceeds | server.js:146-172 | a technician's complete registration with a valid rol and an unused username is accepted |
| Registration.RegisteringTwiceIsDuplicate | server.js:163-164 | registering the same username again is refused as a duplicate |
| Statistics.Summarize | server.js:421-439 | Forbidden exactly for non-technicians; otherwise the total is the number of tickets, each estado count is the number of tickets in that estado, and the three counts add up to the total |
| Statistics.SummarizeAsWritten | server.js:421-432 | the query as written: Forbidden exactly for non-technicians; the three sums are NULL exactly when the table is empty, and otherwise agree with Summarize |
| Statistics.EmptyTableSummaryIsNull | server.js:426-432 | on an empty table the query as written answers NULL counts, where Summarize answers zeros |
| Statistics.Bump | server.js:450-452 | counting one more row of a type grows that type's group by one, or adds a group of one, and keeps one group per type |
| Statistics.Tally | server.js:447-452 | GROUP BY tipo over a scan: one group per type present, each with its number of rows, summing to the number of rows |
| Statistics.CountByType | server.js:441-460 | Forbidden exactly for non-technicians; otherwise one group per tipo present in the table, each counting that tipo's tickets and none empty, largest first, summing to the number of tickets |
| Lifecycle.RunPreservesKeyed | server.js:34-70 | the clock-free part of the invariant holds after any sequence of requests: keys and counters and unique usernames, which the database guarantees, and comment references to existing tickets, which the handlers keep |
| Lifecycle.StepKeepsIdentity | server.js:288-408 | no request removes a ticket or changes its id, owner, texts or creation time |
| Lifecycle.RunKeepsIdentity | server.js:288-408 | along any sequence of requests every ticket keeps its owner, texts and creation time |
| Lifecycle.TicketsPersist | server.js:288-408 | a ticket present after some of the requests is present after all of them |
| Lifecycle.StepPreservesValid | server.js:146-416 | one request keeps the full invariant when the clock has not run backwards |
| Lifecycle.RunPreservesValid | server.js:146-416 | while the clock runs forward, every store reached from a valid one is valid |
| Lifecycle.NonTechniciansAreRefused | server.js:147-149 | updates, assignments and registrations from anyone but a technician are Forbidden and change nothing |
| Lifecycle.UsersCannotMoveTickets | server.js:305-356 | no request from a plain user changes any ticket's estado, prioridad, assignee or resolution time, or the accounts |
| Lifecycle.StepResolution | server.js:330-334 | after one request a ticket has a resolution time exactly when it had one before or the request resolved it |
| Lifecycle.ResolutionRecordsHistory | server.js:330-334 | after any sequence of requests a ticket has a resolution time exactly when it had one at the start or one of the requests resolved it |
| Lifecycle.ResolvedExactlyWhenEverResolved | server.js:330-334 | from an empty database, a ticket has a resolution time exactly when some successful update once set it to `resuelto` |
| Scenarios.OpenedTicket | server.js:253-260 | the first ticket of an empty database gets id 1, is pending with medium priority, is readable by its owner and refused to another user |
| Scenarios.SelfAssignment | server.js:359-363 | a technician who names no one takes the ticket and puts it in progress |
| Scenarios.ResolutionOutlivesReopening | server.js:325-334 | resolving records the time; raising the priority afterwards keeps it; moving the ticket back to pending keeps it too |
| Scenarios.OwnerCannotResolve | server.js:305-307 | the owner of a ticket cannot resolve it |

## Left out

- Authentication. JSON Web Token signing and checking, bcrypt hashing and the
  login route are not modelled. The caller is given as the `id` and `rol` the
  token carries. The password is only checked for presence, and the `activo`
  flag is stored but only login would read it.
- Database setup and the seeding of the default technician account: the model
  starts from `Schema.Empty` or any store satisfying the invariant.
- HTTP wiring. Express routing, status codes as numbers, and the response
  bodies are left out.
- The display columns the read queries join in from `usuarios`: owner and
  technician names and emails, comment author names, and the per-ticket
  comment count.
- The comment list joins comment authors with an inner join. It would drop a
  comment whose author has no account. The model keeps every comment, because
  authors come from tokens issued to existing accounts and accounts are never
  deleted.
- Storage failures other than the CHECK violations the model names (disk,
  locking, driver errors) are not modelled. They would give the 500 answers
  of every handler.
- Concurrency. Each handler is one atomic step. In particular, the comment
  insert and the fire-and-forget timestamp update of server.js:408 are taken
  together.
- Input typing. Non-string JSON values for the text fields are not modelled,
  and neither are non-numeric URL ids or non-numeric `asignado_a` /
  `usuario_id` query texts. The numeric filters carry the number their text
  denotes; a query text of 0 is a non-empty string and so a filter, carried
  as `Some(0)`. The body's `asignado_a` (server.js:325) and `tecnico_id`
  (server.js:359) are modelled as integer JSON numbers or null only: other JSON
  values are not modelled: a fraction such as 1.5 would be stored as a REAL,
  and the string `"0"` is truthy and would assign 0 where the model's
  `Some(0)` falls back to the caller.
- Statistics.CountByType: SQLite leaves the order of groups with equal counts
  unspecified. The model fixes one order, and the contract states only what
  the query guarantees.
- One might expect a ticket to have no resolution time while it is not
  `resuelto`. The code only ever sets `fecha_resolucion`: an update to
  another estado, or an assignment, keeps an earlier resolution time. The model follows the code
  (Scenarios.ResolutionOutlivesReopening, Tickets.ResolutionIsNeverCleared).

## Findings

| source | as written | input that shows it | evidently intended | confidence | as-written member | corrected member |
|---|---|---|---|---|---|---|
| server.js:426-432 | `SUM(CASE … END)` over the `tickets` table; SUM of no rows is NULL in SQL | GET /api/estadisticas by a technician when the table has no tickets answers `{total: 0, pendientes: null, en_progreso: null, resueltos: null}` | zero counts, which add up to the total as they do on a non-empty table | medium, not executed | Statistics.SummarizeAsWritten (Statistics.EmptyTableSummaryIsNull) | Statistics.Summarize |
