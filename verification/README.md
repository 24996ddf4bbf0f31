# TaskManager-Onion core, modelled in Dafny

This project models the task-management core of TaskManager-Onion, an
ASP.NET web API. It covers four pieces:

- **The background job queue** (`TaskQueue`). It is a FIFO of jobs with an
  "is processing" flag under one lock, plus a drain loop that runs each job
  in a fresh scope. The model is a state machine in which every `lock` region
  is one atomic step. Any interleaving of steps keeps four properties:
  - at most one loop is active;
  - the flag is set exactly when a loop is;
  - no pending job is stranded;
  - jobs leave the queue in submission order, and each runs at most once.
- **Task producers and the service** (`TaskFactory`, `ValidacionesTarea`,
  `TaskService`). The factories build tasks relative to a clock `now`. The
  validator demands a non-empty description and a due date strictly after
  `now`. Adding a task either refuses it at once or queues exactly one job.
  That job stores the task and notifies only when the store accepted it.
  Update, delete and the reads fold the repository's reply into a `Response`.
- **The two task repositories**, as operations on a store:
  - The store is a map from id to task, a set of user ids, and an identity
    counter.
  - `TaskRepository` is the current repository. It validates, checks the
    user, refuses duplicate descriptions, and notifies.
  - `TaskReprository` is the older repository. It is the one the web host
    registers.
  - Adding keeps descriptions unique. Updating does not, and a concrete
    store shows it.
- **The completion rate and the refresh-token rotation** (`TaskCalculations`,
  `AuthService`, `RefreshToken`):
  - The rate is exact (`real`) and memoised by `(total, completed)`. The
    cache is proved transparent. The rate does not depend on the order of
    the tasks and lies in [0, 100].
  - Login issues one refresh token. Refresh rejects missing, expired or
    orphaned tokens, and otherwise replaces the old token with a new one for
    the same user. Registration refuses a taken username.

The `Worker` module runs the service, the queue and the store together. It
proves that any interleaving of producers, drain-loop steps and manual
dequeues keeps the queue invariant and a well-formed store. The store also
stays free of duplicate descriptions provided each job runs as one step.
When a loop job and a manually dequeued job overlap, so that both check the
description before either inserts, two tasks with one description can be
stored, and a lemma shows it. It also proves that a job failing before its
save changes nothing and the loop carries on.

Modules, one file each:

| module | file |
|---|---|
| `Wrappers` | `wrappers.dfy` |
| `Domain` | `domain.dfy` |
| `Validation` | `validation.dfy` |
| `Factories` | `factories.dfy` |
| `Responses` | `response.dfy` |
| `TaskStore` | `task_store.dfy` |
| `CurrentRepository` | `current_repository.dfy` |
| `LegacyRepository` | `legacy_repository.dfy` |
| `Commons` | `commons.dfy` |
| `TaskQueue` | `task_queue.dfy` |
| `Calculations` | `calculations.dfy` |
| `Service` | `service.dfy` |
| `Worker` | `worker.dfy` |
| `Tokens` | `tokens.dfy` |
| `Auth` | `auth.dfy` |

Outside inputs are parameters:

- `now` is the clock, counted in 100-nanosecond ticks.
- `fault` is an exception a repository write runs into: thrown by the save
  itself, or, after the save has committed, by the change notifier or the
  hub broadcast.
- `scopeFails` says that scope creation threw.
- `verify`, `hash` and `jwt` stand for BCrypt verification, BCrypt hashing
  and JWT writing.
- `guid` is the fresh identifier a new refresh token gets.

## Model

| member | source | states |
|---|---|---|
| `TaskQueue.Enqueue` | InfrastructureLayer/Repositorio/TaskQueue.cs:21-32 | the job is appended at the tail with earlier jobs untouched; the flag ends set; a loop is started exactly when the flag was clear |
| `TaskQueue.LoopPop` | InfrastructureLayer/Repositorio/TaskQueue.cs:36-46 | on an empty queue the flag is cleared and the loop ends in the same step; otherwise the head job is taken, in order, and the loop holds it |
| `TaskQueue.LoopRun` | InfrastructureLayer/Repositorio/TaskQueue.cs:48-59 | whatever the outcome (completed, threw, scope creation threw) the loop returns to checking; the run gets the next scope identity unless scope creation failed |
| `TaskQueue.Dequeue` | InfrastructureLayer/Repositorio/TaskQueue.cs:63-86 | on an empty queue nothing changes; otherwise exactly the head job is taken and run once; the flag and the loops are never touched |
| `TaskQueue.NextKeepsInv` | InfrastructureLayer/Repositorio/TaskQueue.cs:21-86 | every atomic step keeps the invariant: at most one loop, flag set iff a loop is active, no stranded job, FIFO, each dequeued job run or running exactly once, fresh strictly increasing scopes |
| `TaskQueue.EnqueueKeepsInv` | InfrastructureLayer/Repositorio/TaskQueue.cs:23-31 | enqueuing keeps the invariant |
| `TaskQueue.LoopPopKeepsInv` | InfrastructureLayer/Repositorio/TaskQueue.cs:39-46 | the loop's locked pop-or-idle step keeps the invariant |
| `TaskQueue.LoopRunKeepsInv` | InfrastructureLayer/Repositorio/TaskQueue.cs:48-59 | running a job, however it ends, keeps the invariant, and its scope is newer than every earlier one |
| `TaskQueue.DequeueKeepsInv` | InfrastructureLayer/Repositorio/TaskQueue.cs:63-86 | the manual dequeue keeps the invariant |
| `TaskQueue.ReplayKeepsInv` | InfrastructureLayer/Repositorio/TaskQueue.cs:21-86 | any interleaving of steps from a state satisfying the invariant keeps it |
| `TaskQueue.ReachableIsSafe` | InfrastructureLayer/Repositorio/TaskQueue.cs:23-46 | from a fresh queue, under any interleaving: at most one loop, flag iff loop, no stranded job, dequeued then pending equals submitted |
| `TaskQueue.Drain` | InfrastructureLayer/Repositorio/TaskQueue.cs:34-61 | a loop left to itself stops only when it finds the queue empty and clears the flag, by which time every submitted job has been dequeued |
| `TaskQueue.DrainRunsInOrder` | InfrastructureLayer/Repositorio/TaskQueue.cs:36-60 | draining runs the held job and then every pending job, in order, once each, whatever outcomes the jobs have |
| `TaskQueue.DrainKeepsInv` | InfrastructureLayer/Repositorio/TaskQueue.cs:34-61 | the drained state still satisfies the whole invariant |
| `TaskQueue.SequentialJobsRunInOrder` | InfrastructureLayer/Repositorio/TaskQueue.cs:21-61 | jobs enqueued one after another on an idle queue are all executed, exactly once each, in submission order, even when some throw |
| `TaskQueue.EnqueueAll` | InfrastructureLayer/Repositorio/TaskQueue.cs:21-32 | enqueuing a batch appends it in order and starts at most one loop |
| `Validation.ValidIff` | DomainLayer/ValidacionesTarea.cs:9-13 | a task is valid iff its description is non-null, non-empty and its due date is strictly after now |
| `Validation.DueNowIsInvalid` | DomainLayer/ValidacionesTarea.cs:12 | a task due exactly now is invalid |
| `Validation.MissingDescriptionIsInvalid` | DomainLayer/ValidacionesTarea.cs:11 | a null or empty description is invalid whatever the date |
| `Validation.BlankDescriptionIsValid` | DomainLayer/ValidacionesTarea.cs:11 | every non-empty description made only of spaces, tabs and line breaks passes, given a future due date |
| `Validation.ValidAntiMonotone` | DomainLayer/ValidacionesTarea.cs:12 | valid at some instant implies valid at every earlier instant |
| `Factories.CreateHighPriorityTask` | ApplicationLayer/Factories/TaskFactory.cs:8-17 | pending, "High Priority", due one day after now, given description and user |
| `Factories.CreateLowPriorityTask` | ApplicationLayer/Factories/TaskFactory.cs:20-29 | pending, "Low Priority", due seven days after now, given description and user |
| `Factories.CreateCustomTask` | ApplicationLayer/Factories/TaskFactory.cs:32-41 | pending, with description, due date, extra data and user copied unchanged |
| `Factories.PriorityTaskValidIffDescribed` | ApplicationLayer/Factories/TaskFactory.cs:8-29 | a high- or low-priority task is valid at its creation instant iff its description is non-empty; factories never reject |
| `Factories.CustomTaskValidIff` | ApplicationLayer/Factories/TaskFactory.cs:32-41 | a custom task is valid iff its description is non-empty and its due date is after now; an empty or past one is still built |
| `Factories.PriorityTaskValidityWindow` | ApplicationLayer/Factories/TaskFactory.cs:12-24 | a described high-priority task stays valid for exactly one day, a low-priority one for seven |
| `TaskStore.Insert` | InfrastructureLayer/Repositorio/TaskReprository/TaskRepository.cs:84-85 | an insert stores the entry under a fresh identity, keeps every other task, and keeps the store well formed |
| `TaskStore.InsertKeepsUnique` | InfrastructureLayer/Repositorio/TaskReprository/TaskRepository.cs:78-85 | inserting a task whose description nobody holds keeps descriptions unique |
| `TaskStore.Listing` | InfrastructureLayer/Repositorio/TaskReprository/TaskRepository.cs:37-40 | the table as a list: as many entries as stored tasks, every stored task present, nothing else |
| `CurrentRepository.Add` | InfrastructureLayer/Repositorio/TaskReprository/TaskRepository.cs:60-107 | success iff non-null, valid, known user, unused description and nothing throws; rejections in that order with their messages and no change; a save that throws gives its message and no change; past the save the entry is inserted and the rest kept, then it is notified and its description broadcast, and a throw from either reports failure with the task stored |
| `CurrentRepository.FailedAddCanStore` | InfrastructureLayer/Repositorio/TaskReprository/TaskRepository.cs:85-105 | a throw from the notifier or the hub after the save is reported as failure although the task is stored under the next identity |
| `CurrentRepository.AddKeepsUnique` | InfrastructureLayer/Repositorio/TaskReprository/TaskRepository.cs:78-95 | adding preserves unique descriptions |
| `CurrentRepository.Update` | InfrastructureLayer/Repositorio/TaskReprository/TaskRepository.cs:109-148 | null, invalid, missing or failing to save: no change; past the save exactly description, due date, status and extra data of that task are overwritten, keeping id, owner and all other tasks; success iff nothing after the save throws either, and a throw there reports failure with the change stored |
| `CurrentRepository.UpdateCanDuplicateDescription` | InfrastructureLayer/Repositorio/TaskReprository/TaskRepository.cs:120-131 | a concrete store with unique descriptions where a successful update leaves two tasks sharing one |
| `CurrentRepository.Delete` | InfrastructureLayer/Repositorio/TaskReprository/TaskRepository.cs:150-180 | a non-positive id fails first, an unknown id or a throwing save fails, all with no change; past the save exactly that task is removed and notified; a throw from the notifier or the hub reports failure with the task removed |
| `CurrentRepository.GetId` | InfrastructureLayer/Repositorio/TaskReprository/TaskRepository.cs:53-58 | throws iff the id is not positive; otherwise the task with that id or null |
| `CurrentRepository.Exists` | InfrastructureLayer/Repositorio/TaskReprository/TaskRepository.cs:43-46 | in a well-formed store, true iff some stored task's own id field equals the id |
| `CurrentRepository.GetAll` | InfrastructureLayer/Repositorio/TaskReprository/TaskRepository.cs:37-40 | every stored task is listed, once per stored task, and nothing else |
| `LegacyRepository.Add` | InfrastructureLayer/Repositorio/TaskReprository/TaskReprository.cs:26-45 | success iff non-null, unused description and the save does not throw; a taken description gives "Ya existe una tarea con ese nombre..." with no change; success inserts exactly the entry |
| `LegacyRepository.AddKeepsUnique` | InfrastructureLayer/Repositorio/TaskReprository/TaskReprository.cs:30-38 | the older add also preserves unique descriptions |
| `LegacyRepository.Update` | InfrastructureLayer/Repositorio/TaskReprository/TaskReprository.cs:46-59 | a stored id is replaced wholesale; the unset id 0 is inserted as new; anything else fails with no change |
| `LegacyRepository.Delete` | InfrastructureLayer/Repositorio/TaskReprository/TaskReprository.cs:60-83 | removes the task when found; otherwise "No se encontró la tarea..." with no change |
| `LegacyRepository.GetId` | InfrastructureLayer/Repositorio/TaskReprository/TaskReprository.cs:23-24 | the task with that id or null, never throwing |
| `LegacyRepository.GetAll` | InfrastructureLayer/Repositorio/TaskReprository/TaskReprository.cs:20-21 | every stored task is listed, once per stored task, and nothing else |
| `Commons.AddKeepsUnique` | InfrastructureLayer/Repositorio/Commons/ICommonsProcess.cs:11 | whichever repository is bound, adding keeps descriptions unique |
| `Commons.GetId` | InfrastructureLayer/Repositorio/Commons/ICommonsProcess.cs:9 | only the current repository throws, and only for a non-positive id |
| `Commons.Add` | InfrastructureLayer/Repositorio/Commons/ICommonsProcess.cs:11 | whichever repository is bound, the store is unchanged or the entry, whose description nobody held, is inserted under the next identity; success always inserts; a failure changes nothing unless thrown after the save |
| `Commons.Delete` | InfrastructureLayer/Repositorio/Commons/ICommonsProcess.cs:13 | whichever repository is bound, the store is unchanged or exactly that task is removed; success always removes it; a failure changes nothing unless thrown after the save |
| `Commons.DeleteKeepsUnique` | InfrastructureLayer/Repositorio/Commons/ICommonsProcess.cs:13 | however a delete ends, descriptions stay unique |
| `Service.Submit` | ApplicationLayer/Services/TaskServices/TaskService.cs:88-112 | an invalid task gives "La tarea no es válida" and an unchanged queue; a valid one enqueues exactly that one job and answers "Tarea agregada a la cola de procesamiento" |
| `Service.AddHighPriorityTask` | ApplicationLayer/Services/TaskServices/TaskService.cs:81-120 | refused iff the description is null or empty, with no job queued; otherwise one high-priority job is queued and success is reported whatever the job later does |
| `Service.AddLowPriorityTask` | ApplicationLayer/Services/TaskServices/TaskService.cs:122-161 | the same for a low-priority task |
| `Service.AddCustomTask` | ApplicationLayer/Services/TaskServices/TaskService.cs:163-202 | refused iff the description is null or empty or the due date is not after now; otherwise one custom job is queued |
| `Service.SubmitKeepsQueueInv` | ApplicationLayer/Services/TaskServices/TaskService.cs:95-109 | submitting keeps the queue invariant |
| `Service.RunJob` | ApplicationLayer/Services/TaskServices/TaskService.cs:95-109 | the job body stores through the repository and ends with a notification of the stored task iff the store succeeded; a failure before the save changes nothing |
| `Service.UpdateTask` | ApplicationLayer/Services/TaskServices/TaskService.cs:204-232 | a null task records the exception; an invalid one is refused without calling the repository; otherwise success and message mirror the repository and the service notifies iff it succeeded |
| `Service.DeleteTask` | ApplicationLayer/Services/TaskServices/TaskService.cs:234-263 | a throwing lookup is recorded; a missing task gives "No se encontró la tarea para eliminar" without calling delete; otherwise the reply is mirrored and on success the pre-deletion task is notified |
| `Service.GetTaskById` | ApplicationLayer/Services/TaskServices/TaskService.cs:56-79 | successful iff the task exists, carrying it; otherwise "No se encontró información..." and no data, or the recorded exception |
| `Service.GetTasks` | ApplicationLayer/Services/TaskServices/TaskService.cs:40-54 | successful iff the store holds at least one task; the list holds every stored task |
| `Service.CompletionPercentage` | ApplicationLayer/Services/TaskServices/TaskService.cs:269-295 | no tasks gives "No se encontraron tareas"; a null status records the exception and keeps the cache; otherwise the memoised rate with its message |
| `Service.CompletionPercentageIsRate` | ApplicationLayer/Services/TaskServices/TaskService.cs:284-287 | with a sound cache the reported percentage is the exact share of completed stored tasks, between 0 and 100 |
| `Calculations.CalculateCompletionRate` | ApplicationLayer/Optimizations/TaskCalculations.cs:19-39 | 0 for no tasks; throws iff some status is null; a hit returns the cached value and leaves the cache; a miss adds exactly that key; with a sound cache the result is completed / total * 100 |
| `Calculations.CacheTransparent` | ApplicationLayer/Optimizations/TaskCalculations.cs:29-38 | with any two sound caches the calculation gives the same rate or fails alike |
| `Calculations.ClearCache` | ApplicationLayer/Optimizations/TaskCalculations.cs:44-47 | afterwards nothing is cached and the cache is trivially sound |
| `Calculations.ClearCacheKeepsRates` | ApplicationLayer/Optimizations/TaskCalculations.cs:44-47 | clearing the cache between calls does not change the later result |
| `Calculations.RatePermutationInvariant` | ApplicationLayer/Optimizations/TaskCalculations.cs:21-26 | reordering the tasks changes neither the result nor the cache |
| `Calculations.CountPermutation` | ApplicationLayer/Optimizations/TaskCalculations.cs:26 | counting matches over a list gives the same number for any reordering of it |
| `Calculations.CountBounds` | ApplicationLayer/Optimizations/TaskCalculations.cs:26 | a count of matches is at most the length, equals it iff every element matches, and is 0 iff none does |
| `Calculations.NumCompletedPermutation` | ApplicationLayer/Optimizations/TaskCalculations.cs:26 | the completed count depends only on the multiset of tasks |
| `Calculations.NumCompletedBounds` | ApplicationLayer/Optimizations/TaskCalculations.cs:21-26 | the count is at most the total, equals it iff all are completed, and is 0 iff none is |
| `Calculations.RateRange` | ApplicationLayer/Optimizations/TaskCalculations.cs:36 | the rate lies in [0, 100]; it is 100 iff there are tasks and all are completed, 0 iff none is |
| `Calculations.PercentRange` | ApplicationLayer/Optimizations/TaskCalculations.cs:36 | a part of a whole as a percentage lies in [0, 100], at the ends exactly for none and for all |
| `Calculations.CompletedSpellings` | ApplicationLayer/Optimizations/TaskCalculations.cs:26 | a status counts as completed iff it has nine characters and each is the letter of "completed" at that place, in lower or upper case |
| `Calculations.LowerMatches` | ApplicationLayer/Optimizations/TaskCalculations.cs:26 | a string lower-cases to a word of lower-case letters iff it has the word's length and each character is the word's letter there or its upper-case form |
| `Tokens.ExpiredAtExpiry` | DomainLayer/Models/RefreshToken.cs:14 | a token is expired exactly from its expiry instant on, that instant included |
| `Tokens.ExpiryMonotone` | DomainLayer/Models/RefreshToken.cs:14 | once expired, always expired |
| `Tokens.Generate` | ApplicationLayer/Services/AuthServices/AuthService.cs:163-171 | a token for the given user carrying the new identifier, live when issued and expired from exactly seven days later |
| `Auth.FindByUsername` | InfrastructureLayer/Repositorio/UserRepository/UserRepository.cs:21-24 | the first user with that username, or none iff nobody has it |
| `Auth.FindToken` | InfrastructureLayer/Repositorio/RefreshTokenRepository.cs:22-25 | a stored token with that value, or none iff no token has it |
| `Auth.Authenticate` | ApplicationLayer/Services/AuthServices/AuthService.cs:37-66 | unknown user or wrong password: 401 and no change; otherwise 200, exactly one new token for that user appended, and the response carries profile, access token and the new token |
| `Auth.Refresh` | ApplicationLayer/Services/AuthServices/AuthService.cs:73-104 | missing, expired or orphaned token: 401 and no change; otherwise the presented token is removed and exactly one new token for the same user added, returned in the response |
| `Auth.RefreshRevokesOldToken` | ApplicationLayer/Services/AuthServices/AuthService.cs:84-88 | with unique token values and a new identifier, the presented token can no longer be found after a refresh and values stay unique |
| `Auth.Register` | ApplicationLayer/Services/AuthServices/AuthService.cs:111-130 | a taken username gives 400 and no change; otherwise one verified user with role "User" and the hashed password is added under a fresh id |
| `Auth.RegisterLogsIn` | ApplicationLayer/Services/AuthServices/AuthService.cs:117-129 | a new registration with a consistent hash logs the user in: 200 and one token for the new account |
| `Auth.RegisterKeepsInvariants` | ApplicationLayer/Services/AuthServices/AuthService.cs:113-127 | registration keeps usernames unique and user ids distinct |
| `Auth.SessionsKeepUsers` | ApplicationLayer/Services/AuthServices/AuthService.cs:37-104 | login and refresh never change the user table, and login adds at most one token |
| `Worker.Apply` | InfrastructureLayer/Repositorio/TaskQueue.cs:34-86 | no event removes or alters a stored task, and notifications only accumulate |
| `Worker.ApplyKeepsInv` | ApplicationLayer/Services/TaskServices/TaskService.cs:95-109 | every event (submit, pop, run, manual dequeue) keeps the queue invariant and a well-formed store, and, with each job run as one event, unique descriptions |
| `Worker.ReplayKeepsInv` | InfrastructureLayer/Repositorio/TaskQueue.cs:21-86 | under any interleaving of producers, drain-loop steps and whole-job runs by the loop or by hand, the invariant holds |
| `Worker.OverlappedAdds` | InfrastructureLayer/Repositorio/TaskReprository/TaskRepository.cs:78-85 | two overlapping add jobs both check against the store as it was before either inserts; existing tasks are kept and the store stays well formed |
| `Worker.OverlappedAddsCanDuplicate` | InfrastructureLayer/Repositorio/TaskReprository/TaskRepository.cs:78-85 | two overlapping add jobs that would each be accepted and share a description both get stored, so descriptions are no longer unique |
| `Worker.FailedJobContinues` | InfrastructureLayer/Repositorio/TaskQueue.cs:48-59 | a job whose scope or store fails sends the loop back to checking with pending jobs still flagged; unless the throw came after the save, store and notifications are unchanged |
| `Worker.SucceededJobNotifies` | ApplicationLayer/Services/TaskServices/TaskService.cs:100-104 | a job whose store accepts adds the task under the next identity and ends with a notification of exactly it |

## Left out

- Real threads and `async` scheduling are not modelled; each `lock` region is one atomic step, and the loops' steps interleave arbitrarily with producers. Because `Monitor` is reentrant, the first job's synchronous prefix runs on the producer's thread inside `Enqueue`'s lock (InfrastructureLayer/Repositorio/TaskQueue.cs:29); that detail is not modelled, and neither is timing based on `Task.Delay`.
- `Worker.ReplayKeepsInv`: unique descriptions are kept only because a job runs as one event. In the source the manual `DequeueAsync` runs its job outside the lock (InfrastructureLayer/Repositorio/TaskQueue.cs:67-79), possibly while the loop runs another, and each job checks the description and inserts as separate awaits in its own scope, with no unique index behind them. `Worker.OverlappedAddsCanDuplicate` shows the duplicate such an overlap can store; the general interleaving of check and insert steps is not modelled.
- Scopes are plain increasing identities; disposing a scope is not modelled.
- Entity Framework, SQL Server, SignalR, logging and `Console.WriteLine` are not modelled. The store is a map; an exception during or after a save is the `fault` parameter; a hub broadcast is a recorded `Broadcast` effect.
- Description comparison is exact string equality. The database collation, which may compare case-insensitively, is not modelled.
- An explicit non-zero id on an entry being added is ignored: the identity counter always assigns the id.
- `CurrentRepository.Add` distinguishes a database update error, whose message includes the innermost exception message, from any other exception. Which exceptions the database driver raises is not modelled, and a throw from the notifier or the hub is taken to be some other exception.
- The current repository's constructor null checks are not modelled, and neither is the `_validarTarea != null` test. Both delegates are always registered.
- `DateTime` range limits are not modelled. Adding days to the clock never overflows here.
- The legacy repository reads `_context.Tarea`, a set the current database context no longer declares. It also lacks the interface's `ExistsAsync` and `SaveChangesAsync`. It is modelled as written, over the same store, ignoring users.
- The service calls the factories without the user id the factories require (ApplicationLayer/Services/TaskServices/TaskService.cs:86,127,168 against ApplicationLayer/Factories/TaskFactory.cs:8,20,32), so as shown it does not compile. The service functions here take `userId` explicitly.
- The factories and the validator each read `DateTime.Now` separately. Here they share one `now`.
- `Service.RunJob`: the service's own notification after a successful store (ApplicationLayer/Services/TaskServices/TaskService.cs:103) is taken not to throw; a throw there would reach the queue's catch-all. The queue therefore sees every job that got its scope as completed.
- `Service.UpdateTask`: the contract names the notified task only for a non-zero id. For the older repository's insert of id 0 it states only that a notification is sent. The body sends the task with its new identity.
- `Calculations.Lower`: only ASCII letters are lower-cased. Culture-specific case mapping of other characters is not modelled.
- `Calculations.CalculateCompletionRate` works in exact `real` arithmetic rather than `double`, so rounding (for instance 66.67 against two thirds) is out of scope.
- The completion-rate cache is a static dictionary shared by all threads without a lock. It is passed explicitly here, and races on it are not modelled. Its string key `"{total}_{completed}"` is the pair `(total, completed)`; the two are in one-to-one correspondence for counts.
- `Auth.Authenticate`: BCrypt verification is the `verify` parameter. Its behaviour on a null stored hash, where it throws, is folded into that parameter.
- JWT signing (`GenerateJwtToken`) is the `jwt` parameter, and `Guid.NewGuid` is the `guid` parameter. Token uniqueness therefore appears as a precondition of `Auth.RefreshRevokesOldToken` rather than being proved.
- The user and refresh-token repositories are thin wrappers around the database. They are the sequences in `Auth.Accounts`, plus the first-match lookups.
- The controllers, `Program.cs` wiring, the migration and the test host are not modelled.
- The `TaskServiceTests` cases for `AddTaskAsync` and for a six-argument constructor target an API the service does not have.
