# Video-parser request service, modelled in Dafny

The service keeps a table of video-parsing jobs ("requests") in PostgreSQL and
announces each new job on RabbitMQ. It exposes five HTTP handlers:

- `addRequest`: parse the body, check the name, publish, then insert;
- `getRequests`: list the non-archived jobs;
- `getRequest`: read one job by name;
- `updRequest`: update description, processed and text_url, one UPDATE per field present;
- `delRequest`: soft-delete by name.

An API-key gate (`authMiddleware`) sits in front of every handler. At start-up,
`initRabbit` declares the broker topology: a primary fanout exchange feeding a
worker queue and an archive queue, and a retry exchange and retry queue that
send rejected work back to the primary exchange after 60 seconds.

The model has six modules:

- `Wrappers`: `Option`.
- `Http`: the JSON envelope of `returnResponse` and the `authMiddleware` gate.
- `Rabbit`: the broker's topology as a value, and the broker's answer to each
  declaration: an identical redeclaration is a no-op, a conflicting one or a
  binding to a missing exchange or queue is refused. `InitRabbit` issues the
  eight declarations fail-fast against a given broker state. The module also
  holds AMQP 0-9-1 fanout/direct routing (section 3.1.3 of the AMQP 0-9-1
  specification) and facts about the declared topology. `initRabbit` declares
  only fanout exchanges; the direct kind is there so that a fanout's
  independence of the routing key states something, and so that a change of
  kind counts as a conflicting redeclaration.
- `Retry`: RabbitMQ's dead-letter and TTL extensions as a transition system over
  the copies of one message. It shows the unbounded retry cycle and the archive
  copy added on every cycle.
- `Table`: the `requests` table as a sequence of rows in store order. Each SQL
  statement of requests.go is a function over it, with lemmas about each.
- `Requests`: class `Service`, holding the rows, the log of published messages,
  the id sequence and a logical clock. Each handler is a method. Every call to
  the database or the broker that can fail is a boolean input. A body the JSON
  decoder rejects is `None`.

Nothing keeps job names unique among non-archived jobs: `addRequest` inserts
without looking (requests.go:127-128), and no constraint is visible outside
the unseen migrations. `Requests.DuplicateNames` shows two successful creations
under one name leaving two active rows.

## Model

Paths are relative to the repository root and all lie under
`helm/helm-secrets/helm-secrets/cmd/helm-secrets/`.

| member | source | states |
|---|---|---|
| Http.ReturnResponse | helm/helm-secrets/helm-secrets/cmd/helm-secrets/main.go:51-66 | the answer is JSON with the given code, message and data; `success` is true exactly when the code is below 400 |
| Http.HeaderGet | helm/helm-secrets/helm-secrets/cmd/helm-secrets/main.go:163-163 | a present header reads as the value stored under its (canonical) name, and an absent one as the empty string |
| Http.AuthMiddleware | helm/helm-secrets/helm-secrets/cmd/helm-secrets/main.go:161-172 | the wrapped handler runs (`None`) exactly when the API-key header (`X-API-KEY`, stored as `X-Api-Key`) equals the configured token; otherwise the answer is 401 with "Missing Authorization Header\n" |
| Http.CorrectKeyAccepted | helm/helm-secrets/helm-secrets/cmd/helm-secrets/main.go:163-170 | a request whose key header carries the configured token reaches the wrapped handler |
| Http.MissingHeaderRejected | helm/helm-secrets/helm-secrets/cmd/helm-secrets/main.go:163-167 | a request without the key header is refused with 401 whenever the token is non-empty |
| Rabbit.FindExchange | helm/helm-secrets/helm-secrets/cmd/helm-secrets/main.go:175-199 | the result is an exchange of the list with that name, and there is none exactly when no exchange has the name |
| Rabbit.FindQueue | helm/helm-secrets/helm-secrets/cmd/helm-secrets/main.go:203-238 | the result is a queue of the list with that name, and there is none exactly when no queue has the name |
| Rabbit.FindExchangeAppend | helm/helm-secrets/helm-secrets/cmd/helm-secrets/main.go:175-199 | lookup returns the first declaration under a name: one in an earlier part of the list shadows any later one |
| Rabbit.FindQueueAppend | helm/helm-secrets/helm-secrets/cmd/helm-secrets/main.go:203-238 | the same for queues |
| Rabbit.Declare | helm/helm-secrets/helm-secrets/cmd/helm-secrets/main.go:175-253 | a declaration the broker accepts keeps every earlier exchange, queue and binding, in order, and adds nothing but the entity or binding it declares |
| Rabbit.DeclareRefusedIff | helm/helm-secrets/helm-secrets/cmd/helm-secrets/main.go:175-253 | the broker refuses an exchange or queue declaration exactly when the name is taken by one with other parameters, and a binding exactly when its exchange or queue is missing; an accepted declaration is present afterwards |
| Rabbit.DeclareMakesPresent | helm/helm-secrets/helm-secrets/cmd/helm-secrets/main.go:175-253 | after an accepted declaration its entity or binding is present, and a binding's exchange and queue exist |
| Rabbit.Plan | helm/helm-secrets/helm-secrets/cmd/helm-secrets/main.go:175-253 | `initRabbit` issues eight declarations |
| Rabbit.Attempt | helm/helm-secrets/helm-secrets/cmd/helm-secrets/main.go:175-186 | one channel call is recorded; it fails exactly when its step number is failing or the broker refuses it, and then leaves the broker state unchanged; otherwise the broker's answer is the new state |
| Rabbit.DeclareAllStep | helm/helm-secrets/helm-secrets/cmd/helm-secrets/main.go:174-256 | declaring one more step of a plan applies exactly that step to the state reached so far |
| Rabbit.DeclareAllPrefix | helm/helm-secrets/helm-secrets/cmd/helm-secrets/main.go:174-256 | a run of declarations that succeeds succeeded on each of its prefixes |
| Rabbit.FailedStepStops | helm/helm-secrets/helm-secrets/cmd/helm-secrets/main.go:174-256 | a step that breaks or is refused makes the whole run fail |
| Rabbit.IssueAll | helm/helm-secrets/helm-secrets/cmd/helm-secrets/main.go:174-256 | declarations are issued in plan order against the given broker state; the error is the first step that breaks or is refused, no later call is attempted, and the broker holds exactly the result of the declarations before it; with no such step every call is issued and applied |
| Rabbit.InitRabbit | helm/helm-secrets/helm-secrets/cmd/helm-secrets/main.go:174-256 | the same for the eight declarations of `initRabbit` against any broker state; on an empty broker, and on one that already holds the topology, it fails only on a broken call and otherwise leaves exactly the declared topology |
| Rabbit.PlanInDependencyOrder | helm/helm-secrets/helm-secrets/cmd/helm-secrets/main.go:175-253 | exchanges are declared before queues and queues before bindings; every binding names an exchange and a queue already declared when it is issued |
| Rabbit.BindingBeforeQueueRefused | helm/helm-secrets/helm-secrets/cmd/helm-secrets/main.go:240-243 | issued on an empty broker, the first binding alone is refused: the order of the plan matters |
| Rabbit.PlanStep | helm/helm-secrets/helm-secrets/cmd/helm-secrets/main.go:175-253 | on an empty broker each step of the plan adds exactly its own entity, because no name is declared twice |
| Rabbit.ExchangeSteps | helm/helm-secrets/helm-secrets/cmd/helm-secrets/main.go:175-199 | the two exchange steps of `PlanStep`: neither name is taken yet |
| Rabbit.QueueSteps | helm/helm-secrets/helm-secrets/cmd/helm-secrets/main.go:203-238 | the three queue steps of `PlanStep`: none of the names is taken yet |
| Rabbit.BindingSteps | helm/helm-secrets/helm-secrets/cmd/helm-secrets/main.go:240-253 | the three binding steps of `PlanStep`: their exchanges and queues exist and none is bound yet |
| Rabbit.WholePlan | helm/helm-secrets/helm-secrets/cmd/helm-secrets/main.go:175-253 | proof helper for `DeclaredTopology`: the state after all eight steps is the declared topology |
| Rabbit.PlanPrefix | helm/helm-secrets/helm-secrets/cmd/helm-secrets/main.go:175-253 | every prefix of the plan leaves an empty broker in the state listing the entities declared so far |
| Rabbit.DeclaredTopology | helm/helm-secrets/helm-secrets/cmd/helm-secrets/main.go:175-253 | on an empty broker the plan succeeds and declares two exchanges, three queues and three bindings, in source order |
| Rabbit.ExtendsKeepsPresent | helm/helm-secrets/helm-secrets/cmd/helm-secrets/main.go:175-253 | an entity or binding already present stays present as the broker state grows |
| Rabbit.DeclareAllMakesPresent | helm/helm-secrets/helm-secrets/cmd/helm-secrets/main.go:175-253 | a successful run of declarations only adds to the broker and leaves each of its declarations present |
| Rabbit.DeclareAllNoOp | helm/helm-secrets/helm-secrets/cmd/helm-secrets/main.go:175-253 | declarations that are all present change nothing and are all accepted |
| Rabbit.DeclareAllIdempotent | helm/helm-secrets/helm-secrets/cmd/helm-secrets/main.go:175-253 | repeating a successful run of declarations on the state it produced succeeds and changes nothing |
| Rabbit.DeclaredHasPlan | helm/helm-secrets/helm-secrets/cmd/helm-secrets/main.go:175-253 | every declaration of the plan is present in the declared topology |
| Rabbit.InitRabbitRerun | helm/helm-secrets/helm-secrets/cmd/helm-secrets/main.go:174-256 | re-running `initRabbit` (any prefix of it) against a broker that already holds its topology succeeds and leaves that topology as it is |
| Rabbit.ConflictingRedeclarationRefused | helm/helm-secrets/helm-secrets/cmd/helm-secrets/main.go:175-186 | if the broker already holds a different exchange under the primary exchange's name, the first declaration is refused and `initRabbit` fails |
| Rabbit.Route | helm/helm-secrets/helm-secrets/cmd/helm-secrets/main.go:240-250 | a message reaches only queues bound to this exchange; an exchange the topology does not hold routes nowhere; a fanout exchange reaches every queue bound to it, so for a fanout the queues reached are exactly those bound to it |
| Rabbit.FanoutIgnoresKey | helm/helm-secrets/helm-secrets/cmd/helm-secrets/main.go:240-250 | a fanout exchange routes a message the same way whatever its routing key |
| Rabbit.DeclaredRoutes | helm/helm-secrets/helm-secrets/cmd/helm-secrets/main.go:240-250 | on the declared topology, the primary exchange reaches exactly the worker and archive queues and the retry exchange exactly the retry queue, for every key; no other exchange exists |
| Rabbit.DeclaredEntities | helm/helm-secrets/helm-secrets/cmd/helm-secrets/main.go:175-238 | both exchanges are durable, non-auto-deleted, non-internal fanouts; all three queues are durable, not auto-deleted and non-exclusive; the names are exactly the five declared |
| Rabbit.DeclaredFindQueue | helm/helm-secrets/helm-secrets/cmd/helm-secrets/main.go:203-238 | a queue name in the declared topology resolves to its declaration, and any other name resolves to nothing |
| Rabbit.DeclaredQueueArguments | helm/helm-secrets/helm-secrets/cmd/helm-secrets/main.go:201-238 | the worker queue dead-letters to the retry exchange and has no TTL; the retry queue dead-letters to the primary exchange with a 60000 ms TTL; the archive queue has no arguments |
| Retry.StepFacts | helm/helm-secrets/helm-secrets/cmd/helm-secrets/main.go:175-250 | a publish is enabled exactly when its exchange is declared (otherwise it is a channel error); every broker step keeps the routing key, and only an acknowledgement counts one |
| Retry.RunFacts | helm/helm-secrets/helm-secrets/cmd/helm-secrets/main.go:175-250 | a run of broker events keeps the routing key and counts exactly one acknowledgement per `Ack` event |
| Retry.RunAppend | helm/helm-secrets/helm-secrets/cmd/helm-secrets/main.go:201-253 | running two event sequences one after the other is running their concatenation |
| Retry.DeclaredWiring | helm/helm-secrets/helm-secrets/cmd/helm-secrets/main.go:201-253 | the declared topology has the retry wiring: fanout targets, the dead-letter chain worker → retry exchange and retry → primary exchange, and a TTL only on the retry queue |
| Retry.DeadLetterTargets | helm/helm-secrets/helm-secrets/cmd/helm-secrets/main.go:201-250 | a dead copy from the worker queue lands on the retry queue; one from the retry queue lands on both the worker and the archive queue; one from any other queue is dropped |
| Retry.PublishFansOut | helm/helm-secrets/helm-secrets/cmd/helm-secrets/main.go:240-245 | publishing to the primary exchange adds exactly one copy to the worker queue and one to the archive queue, and changes nothing else |
| Retry.RejectEntersCooldown | helm/helm-secrets/helm-secrets/cmd/helm-secrets/main.go:201-250 | a worker's rejection settles the copy and puts exactly one copy on the retry queue |
| Retry.ExpiryRequeues | helm/helm-secrets/helm-secrets/cmd/helm-secrets/main.go:215-245 | a copy whose TTL runs out on the retry queue goes back through the primary exchange, adding one copy to the worker queue and one to the archive queue |
| Retry.OnlyRetryQueueExpires | helm/helm-secrets/helm-secrets/cmd/helm-secrets/main.go:201-238 | no queue other than the retry queue expires copies, and a copy rejected from the archive queue is dropped without being requeued |
| Retry.FailedAttemptCycles | helm/helm-secrets/helm-secrets/cmd/helm-secrets/main.go:201-250 | one failed attempt (deliver, reject, expire) returns the job to the worker queue with everything as before, except one more copy on the archive queue |
| Retry.RunCons | helm/helm-secrets/helm-secrets/cmd/helm-secrets/main.go:201-253 | proof helper: running an event followed by more events is the step and then the rest |
| Retry.CycleCounts | helm/helm-secrets/helm-secrets/cmd/helm-secrets/main.go:201-250 | proof helper: the multiset arithmetic of one failed attempt on the ready copies |
| Retry.AttemptsUnfold | helm/helm-secrets/helm-secrets/cmd/helm-secrets/main.go:201-253 | the n-th failed attempt starts from the state the first n - 1 left |
| Retry.RetriesNeverEnd | helm/helm-secrets/helm-secrets/cmd/helm-secrets/main.go:201-250 | no retry ceiling: after any number n of failed attempts the job is back on the worker queue, nothing was acknowledged, and the archive queue holds n more copies |
| Retry.StepKeepsLive | helm/helm-secrets/helm-secrets/cmd/helm-secrets/main.go:201-250 | every broker step other than an acknowledgement or a new publish keeps the number of copies that can still reach a worker |
| Retry.RejectKeepsLive | helm/helm-secrets/helm-secrets/cmd/helm-secrets/main.go:201-250 | a rejection moves the copy along the dead-letter chain without losing or adding a live copy |
| Retry.ExpireKeepsLive | helm/helm-secrets/helm-secrets/cmd/helm-secrets/main.go:215-245 | an expiry on the retry queue hands the copy back to the worker queue without losing a live copy |
| Retry.QueueNamesDistinct | helm/helm-secrets/helm-secrets/cmd/helm-secrets/main.go:203-238 | proof helper: the three declared queue names are pairwise different |
| Retry.LiveSettle | helm/helm-secrets/helm-secrets/cmd/helm-secrets/main.go:201-215 | proof helper: settling a rejected copy and dead-lettering it as the wiring says keeps the live count |
| Retry.LiveExpire | helm/helm-secrets/helm-secrets/cmd/helm-secrets/main.go:215-215 | proof helper: replacing an expired retry copy by a worker copy and an archive copy keeps the live count |
| Retry.LiveMove | helm/helm-secrets/helm-secrets/cmd/helm-secrets/main.go:201-238 | proof helper: moving a copy from ready to delivered on the same queue keeps the live count |
| Retry.RunKeepsLive | helm/helm-secrets/helm-secrets/cmd/helm-secrets/main.go:201-250 | a message that is never acknowledged never reaches a terminal state: along any run without acknowledgements or new publishes its live copies stay as many as they were |
| Table.CountActive | helm/helm-secrets/helm-secrets/cmd/helm-secrets/requests.go:33-47 | the count of `isExist` is at most one per row, and zero exactly when no row is named `n` and not archived |
| Table.IsExistIff | helm/helm-secrets/helm-secrets/cmd/helm-secrets/requests.go:33-47 | `isExist(n)` holds exactly when some row is named `n` and not archived |
| Table.CountActiveAppend | helm/helm-secrets/helm-secrets/cmd/helm-secrets/requests.go:36-128 | an inserted row adds to the count of active rows under its name, whatever rows already carry that name |
| Table.FirstActive | helm/helm-secrets/helm-secrets/cmd/helm-secrets/requests.go:49-57 | the row `load` scans is active under the name with no active row before it; there is none exactly when no row is active under the name |
| Table.LoadFindsExisting | helm/helm-secrets/helm-secrets/cmd/helm-secrets/requests.go:33-57 | `load` finds a row exactly when `isExist` reports one |
| Table.Loaded | helm/helm-secrets/helm-secrets/cmd/helm-secrets/requests.go:50-51 | the loaded struct has both timestamps set and `archived` left at false, since that column is not selected |
| Table.Summary | helm/helm-secrets/helm-secrets/cmd/helm-secrets/requests.go:139-155 | a listed entry has video_url, text_url, archived and processed at their zero values, since those columns are not selected |
| Table.ListView | helm/helm-secrets/helm-secrets/cmd/helm-secrets/requests.go:139-162 | the list has no more entries than the table, and no entry carries video_url, text_url or processed |
| Table.ListViewSound | helm/helm-secrets/helm-secrets/cmd/helm-secrets/requests.go:139-162 | every listed entry is the summary of a non-archived row |
| Table.ListViewComplete | helm/helm-secrets/helm-secrets/cmd/helm-secrets/requests.go:139-162 | every non-archived row is listed |
| Table.ListViewLength | helm/helm-secrets/helm-secrets/cmd/helm-secrets/requests.go:139-162 | the list has exactly one entry per non-archived row |
| Table.ListViewOrdered | helm/helm-secrets/helm-secrets/cmd/helm-secrets/requests.go:139-162 | the list keeps store order: with ids increasing along the table, they increase along the list |
| Table.FromPayload | helm/helm-secrets/helm-secrets/cmd/helm-secrets/requests.go:78-100 | no struct is built exactly when `name` is absent; otherwise the struct carries the name, no id, no timestamps and is not archived |
| Table.Marshal | helm/helm-secrets/helm-secrets/cmd/helm-secrets/requests.go:103-103 | the message body loses only the id: put back, it gives the struct that was marshalled |
| Table.MarshalForgetsOnlyId | helm/helm-secrets/helm-secrets/cmd/helm-secrets/requests.go:15-29 | two structs marshal to the same body exactly when they differ at most in `id` |
| Table.NewRow | helm/helm-secrets/helm-secrets/cmd/helm-secrets/requests.go:127-128 | the inserted row has the returned id, is not archived and is stamped with the insert tick |
| Table.AddedRowMatchesMessage | helm/helm-secrets/helm-secrets/cmd/helm-secrets/requests.go:84-128 | the stored row and the published body agree field by field; each field is the body's value or its zero value ("" or false) |
| Table.AddMakesExist | helm/helm-secrets/helm-secrets/cmd/helm-secrets/requests.go:36-128 | after an insert of a non-archived row its name exists |
| Table.Writes | helm/helm-secrets/helm-secrets/cmd/helm-secrets/requests.go:235-260 | a body yields at most three UPDATE statements |
| Table.WritesLayout | helm/helm-secrets/helm-secrets/cmd/helm-secrets/requests.go:235-260 | one statement per present field, in the order description, processed, text_url |
| Table.WriteById | helm/helm-secrets/helm-secrets/cmd/helm-secrets/requests.go:236-237 | one UPDATE leaves rows with another id untouched and never changes a row's id, name, video url, creation stamp or archived flag |
| Table.WriteAllNext | helm/helm-secrets/helm-secrets/cmd/helm-secrets/requests.go:235-260 | committing statement k after the first k applies it at the next clock tick |
| Table.WriteAllEffect | helm/helm-secrets/helm-secrets/cmd/helm-secrets/requests.go:235-260 | the statements run in order (`WriteAll`) change only rows with the target id, and on them only description, processed and text_url (each to the last value written) and updated_at |
| Table.WritesEffect | helm/helm-secrets/helm-secrets/cmd/helm-secrets/requests.go:235-260 | after a body's statements each column holds the body's value when present and its old value otherwise; updated_at advances exactly when some field was present |
| Table.WritesColumns | helm/helm-secrets/helm-secrets/cmd/helm-secrets/requests.go:235-260 | each updatable column ends with the body's value when present and as it was otherwise |
| Table.LeadingWritesColumns | helm/helm-secrets/helm-secrets/cmd/helm-secrets/requests.go:235-251 | proof helper for `WritesColumns`: the same for the description and processed statements, which leave text_url alone |
| Table.AfterSnoc | helm/helm-secrets/helm-secrets/cmd/helm-secrets/requests.go:235-260 | proof helper: an appended statement decides its own column and leaves the other two as they were |
| Table.OnlyProcessedIsolated | helm/helm-secrets/helm-secrets/cmd/helm-secrets/requests.go:244-251 | a body carrying only `processed` sets that flag, advances updated_at and leaves description, text_url, name and archived alone |
| Table.Applied | helm/helm-secrets/helm-secrets/cmd/helm-secrets/requests.go:235-260 | the committed statements are exactly those before the first failing one |
| Table.AppliedAppend | helm/helm-secrets/helm-secrets/cmd/helm-secrets/requests.go:235-260 | statements after a failing one never commit |
| Table.ArchiveByName | helm/helm-secrets/helm-secrets/cmd/helm-secrets/requests.go:282-283 | every row carrying the name, archived already or not, becomes archived and stamped with the statement's tick, with its other columns unchanged; a row ends archived exactly when it was archived or carries the name; rows with another name are untouched |
| Table.ArchiveHides | helm/helm-secrets/helm-secrets/cmd/helm-secrets/requests.go:282-283 | after the delete statement the name no longer exists |
| Table.ArchiveKeepsOthers | helm/helm-secrets/helm-secrets/cmd/helm-secrets/requests.go:282-283 | the delete statement leaves every other name's existence as it was |
| Table.GrowsTrans | helm/helm-secrets/helm-secrets/cmd/helm-secrets/requests.go:127-283 | soft-delete monotonicity composes over successive statements |
| Table.InsertGrows | helm/helm-secrets/helm-secrets/cmd/helm-secrets/requests.go:127-128 | an insert only appends a row |
| Table.WriteAllGrows | helm/helm-secrets/helm-secrets/cmd/helm-secrets/requests.go:235-260 | after the update statements no row is removed, ids, names, video urls and creation stamps are unchanged, and an archived row is still archived |
| Table.ArchiveGrows | helm/helm-secrets/helm-secrets/cmd/helm-secrets/requests.go:282-283 | the delete keeps every row with its id, name, video url and creation stamp, and an archived row stays archived |
| Table.InsertWellFormed | helm/helm-secrets/helm-secrets/cmd/helm-secrets/requests.go:127-128 | an insert with the next id keeps ids increasing, below the sequence and stamps ordered |
| Table.WriteAllWellFormed | helm/helm-secrets/helm-secrets/cmd/helm-secrets/requests.go:235-260 | the update statements keep the table well formed |
| Table.WriteByIdWellFormed | helm/helm-secrets/helm-secrets/cmd/helm-secrets/requests.go:236-237 | one update statement keeps the table well formed |
| Table.ArchiveWellFormed | helm/helm-secrets/helm-secrets/cmd/helm-secrets/requests.go:282-283 | the delete statement keeps the table well formed |
| Requests.Message | helm/helm-secrets/helm-secrets/cmd/helm-secrets/requests.go:103-119 | the published message goes to the primary exchange with an empty routing key, neither mandatory nor immediate, persistent, typed application/json, with the marshalled struct as body |
| Requests.MessageReachesWorkerAndArchive | helm/helm-secrets/helm-secrets/cmd/helm-secrets/requests.go:110-119 | the message `addRequest` publishes reaches exactly the worker queue and the archive queue of the declared topology |
| Requests.Service.constructor | helm/helm-secrets/helm-secrets/cmd/helm-secrets/main.go:33-37 | a fresh service has an empty table, nothing published, the id sequence at 1 and the clock at 0 |
| Requests.Service.Load | helm/helm-secrets/helm-secrets/cmd/helm-secrets/requests.go:49-57 | `load` yields the first active row under the name, scanned into a struct, or nothing when the query fails or finds no row |
| Requests.Service.GetRequests | helm/helm-secrets/helm-secrets/cmd/helm-secrets/requests.go:138-174 | a query failure gives 500 "Can't get requests", a scan failure 500 "Can't scan request"; otherwise 200 with the summaries of the non-archived rows in store order |
| Requests.Service.GetRequest | helm/helm-secrets/helm-secrets/cmd/helm-secrets/requests.go:176-202 | existence-check failure gives 500, a missing name 400 "Request doesn't exist", a load failure 500; otherwise 200 with the first active row under the name |
| Requests.Service.AddRequest | helm/helm-secrets/helm-secrets/cmd/helm-secrets/requests.go:68-136 | parse, name, publish and insert in that order; each failure before the publish changes nothing; a failed insert leaves the message published and the table unchanged; success appends one message and one row with a fresh id |
| Requests.Service.Exec | helm/helm-secrets/helm-secrets/cmd/helm-secrets/requests.go:236-241 | one UPDATE either fails and changes nothing, or commits at the next tick on the rows with that id |
| Requests.Service.UpdRequest | helm/helm-secrets/helm-secrets/cmd/helm-secrets/requests.go:204-263 | the existence check, load and parse failures change nothing; otherwise exactly the statements before the first failing one are committed on the loaded row's id, and the answer is 500 if one failed, 200 otherwise |
| Requests.Service.ExecWrites | helm/helm-secrets/helm-secrets/cmd/helm-secrets/requests.go:235-260 | the body's statements commit in order until the first failure; the table is the result of those committed |
| Requests.Service.ExecNext | helm/helm-secrets/helm-secrets/cmd/helm-secrets/requests.go:235-260 | the next statement either fails, fixing the number committed, or commits as one more |
| Requests.Service.DelRequest | helm/helm-secrets/helm-secrets/cmd/helm-secrets/requests.go:265-290 | check and statement failures and a missing name change nothing; success archives every row with the name, after which the name no longer exists |
| Requests.Service.ExecArchive | helm/helm-secrets/helm-secrets/cmd/helm-secrets/requests.go:282-287 | the delete statement either fails and changes nothing, or archives every row with the name at the next tick |
| Requests.Service.Serve | helm/helm-secrets/helm-secrets/cmd/helm-secrets/main.go:120-172 | a wrong or missing key gives 401 and changes nothing; with the right key the answer and the new state are those of the handler the route names (list, create, read, update, delete), case by case; whatever runs, archived rows stay archived and no row is removed |
| Requests.Lifecycle | helm/helm-secrets/helm-secrets/cmd/helm-secrets/requests.go:68-290 | create, mark processed, delete: the row ends archived and processed with its creation fields, one message was published, and a later read answers 400 "Request doesn't exist" |
| Requests.CreateAndMark | helm/helm-secrets/helm-secrets/cmd/helm-secrets/requests.go:68-263 | proof helper for `Lifecycle`: creating the job and marking it processed leaves one processed, non-archived row stamped at ticks 1 and 2, and one message |
| Requests.LifecycleUpdate | helm/helm-secrets/helm-secrets/cmd/helm-secrets/requests.go:235-260 | proof helper for `Lifecycle`: the update marks the only row processed at the next tick |
| Requests.LifecycleDelete | helm/helm-secrets/helm-secrets/cmd/helm-secrets/requests.go:282-283 | proof helper for `Lifecycle`: the delete archives the only row at tick 3 |
| Requests.DuplicateNames | helm/helm-secrets/helm-secrets/cmd/helm-secrets/requests.go:127-135 | two creations under one name leave two active rows with that name |

## Left out

- `Can't marshal request` (requests.go:103-108): `json.Marshal` of the struct is a total function here, so the 500 branch after it is not modelled.
- `sql.ErrNoRows` in `getRequests` (requests.go:142-144) is not modelled, because `db.Query` does not return it.
- Requests.Service.GetRequests: a failure of any row scan and of `rows.Err()` is one flag, checked after the loop. The answer is the same 500 "Can't scan request".
- JSON encoding and decoding are left out. A parse either fails (`None`) or yields a payload whose fields are optional. A nil `Requests` slice, which encodes as `null` rather than `[]`, is not distinguished from an empty list.
- The HTTP plumbing is left out: the router, `ResponseWriter` writes, the `Content-Type` header, the trailing newline, the logging handler, server timeouts and signal-driven shutdown (main.go:117-154).
- Requests.Service.Serve: route matching by path and method (main.go:120-124) becomes the `Call` datatype. Request headers are a map keyed by canonical names, as net/http stores them; the canonicalisation of incoming names is not modelled.
- The literal token value (main.go:164) is an opaque configured constant, the class's `token`.
- Environment loading, migrations and connection setup (main.go:72-109) are left out. The table's defaults come from the unseen migrations: a new row is not archived, and both of its timestamps are the insert's tick.
- Timestamps are ticks of a logical clock. The clock advances by one per committed write.
- A failed insert does not consume an id in the model, whereas a Postgres sequence would.
- Concurrency on the shared `db` handle and `ch` channel is not modelled; calls are sequential.
- Which row `load` returns when several active rows share a name is not specified by its query (no `ORDER BY`). The model takes the first in store order.
- The package variable `queue` that `initRabbit` reassigns (main.go:203-228) is never read by the core, so it is not modelled.
- Broker internals are not modelled: consumer dispatch policy, real-time TTL expiry (an enabled transition stands in for it) and durability to disk. Exchange kinds other than fanout and direct, and binding-key patterns, are not modelled either.
- Rabbit.Declare: the equivalence check that decides between a no-op and a refusal compares every modelled field, the no-wait flag included, which RabbitMQ does not compare. Every declaration of `initRabbit` uses the same no-wait value, so this only matters for a broker state declared by someone else.
- A refused declaration or a publish to a missing exchange closes the AMQP channel in RabbitMQ. The model ends `initRabbit` at the failing step and makes such a publish a disabled step, but does not model the closed channel afterwards.
