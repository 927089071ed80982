# Job work-queue of the raw-data converter service, in Dafny

This project models the job queue of `rawdata-converter-boss`. Producers
submit jobs. Each job carries an id (a ULID), a source partition and an
opaque document. Consumers claim the next available job and later report it
done. The job table is an immutable map from id to row. Every HTTP handler is
a pure step `(table, arguments) -> (table', response)`. HTTP statuses are
plain enum values: `Ok` 200, `Created` 201, `BadRequest` 400, `NotFound` 404,
`Conflict` 409.

Modules, one per source component:

- `Wrappers`: `Option` for Java's nullable values and `Result` for the exceptions it throws.
- `Ids`: ULID validity, the parser used at the boundary, and the id order (code-point order, which agrees with String `compareTo` on strings without supplementary characters, so on every ULID). It also proves that text order of equal-length ULIDs is the order of the 128-bit numbers they spell. The first 10 characters are the millisecond timestamp, so ascending id means non-decreasing timestamp; ids from the same millisecond are ordered by their random part, not by when they were generated.
- `Jobs` (`Job.java`): the `Status` enum and its `get` parser, the document payload, and the `Job` record with its id-validating `setId` and its `create` factory.
- `Repository` (`JobRepository.java`, plus the repository calls the controller makes):
  - insert-or-ignore `createJob`;
  - the reads;
  - the claim `findAvailableJob`;
  - `jobDone`.
- `Controller` (`JobController.java`): the six handlers, and scenario lemmas taken from the controller's integration test.
- `Queue`: runs of handler calls. Over any run, statuses never move backwards, no job is handed out twice, repeated claims come out in ascending id order, N claims against M claimable jobs give exactly min(N, M) successes, and calls scoped to one source never touch another source's rows.

`JobRepository.java` in the source tree is an older iteration of the class. It uses UUID keys, a
`createJob(UUID, Job)` signature and no status or source columns. The
controller calls `createJob(id, source, document)`, `readJob(id, status,
source)`, `findAvailableJob(...)` and `jobDone(id, source)`, and their
bodies are not part of this model. These operations are modelled from three
things:

- the SQL of the insert in that older class;
- how the controller uses their return values;
- the assertions of the integration test.

In detail:

- A claim takes the AVAILABLE job with the smallest id (within the source, if one is given) and makes it ACTIVE.
- `jobDone` sets DONE on the row matching `(id, source)`, whatever its prior status. This is an assumption: it can complete a job that is still AVAILABLE, and the model keeps that permissive behaviour.
- `readJobs` returns a Java `HashMap`, which has no order. The model returns the rows in ascending id order.

## Model

| member | source | states |
|---|---|---|
| Ids.ParseUlid | src/main/java/no/ssb/rawdata/converter/job/JobController.java:52-57 | accepts exactly the well-formed ULIDs and returns them unchanged; a rejection says why: the wrong length (with the actual length), the first character outside the alphabet (by index), or a first character above '7' (timestamp overflow) |
| Ids.LessIsNumericOrder | src/main/java/no/ssb/rawdata/converter/job/JobController.java:66 | for equal-length Base32 ids, text order equals the numeric order of the values they spell, so ascending id means non-decreasing timestamp (ties ordered by the random part) |
| Ids.UlidFits128Bits | src/main/java/no/ssb/rawdata/converter/job/Job.java:21 | a valid ULID spells a number below 2^128, because its first character is at most '7' |
| Ids.MinId | src/main/java/no/ssb/rawdata/converter/job/JobController.java:43 | returns a member of the non-empty set that is less than or equal to every member under String order |
| Jobs.Ordinal | src/main/java/no/ssb/rawdata/converter/job/Job.java:37-41 | each status sits at its declared position in AVAILABLE, ACTIVE, DONE; the forward-only order is this ordinal order |
| Jobs.Get | src/main/java/no/ssb/rawdata/converter/job/Job.java:42-44 | null is rejected; otherwise `get` succeeds exactly when the upper-cased argument names a constant, and returns that constant |
| Jobs.GetIgnoresCase | src/main/java/no/ssb/rawdata/converter/job/Job.java:42-44 | a name and its upper-cased form parse to the same result |
| Jobs.GetNameRoundTrip | src/main/java/no/ssb/rawdata/converter/job/Job.java:37-44 | every constant parses back from its own name |
| Jobs.GetLowerCaseActive | src/main/java/no/ssb/rawdata/converter/job/Job.java:42-44 | "active" parses to ACTIVE |
| Jobs.GetRejectsUnknown | src/main/java/no/ssb/rawdata/converter/job/Job.java:42-44 | any name that is not AVAILABLE, ACTIVE or DONE in any letter case is rejected as an unknown constant |
| Jobs.SameJob | src/main/java/no/ssb/rawdata/converter/job/Job.java:9-14 | the generated field-by-field equality holds exactly when the two records are the same value |
| Jobs.SetId | src/main/java/no/ssb/rawdata/converter/job/Job.java:19-26 | succeeds exactly for valid ULIDs, changing only the id; a rejected id yields the invalid-id error and no new job |
| Jobs.Create | src/main/java/no/ssb/rawdata/converter/job/Job.java:28-35 | fails exactly when the id is not a ULID; otherwise the four fields equal the arguments |
| Repository.CreateJob | src/main/java/no/ssb/rawdata/converter/job/JobRepository.java:44-47 | reports 0 or 1 rows; 1 exactly when the id was free, and then the table gains exactly one AVAILABLE row; existing rows are never changed |
| Repository.CreateTwiceKeepsFirst | src/main/java/no/ssb/rawdata/converter/job/JobRepository.java:44 | inserting one id twice gives 1 then 0 rows; the table keeps one row for it, holding the first payload |
| Repository.ReadJob | src/main/java/no/ssb/rawdata/converter/job/JobRepository.java:53-66 | returns nothing exactly when the id is absent, and otherwise the job stored under that id |
| Repository.ReadAfterCreate | src/main/java/no/ssb/rawdata/converter/job/JobRepository.java:44-66 | reading a freshly inserted id returns the AVAILABLE job with the inserted source and payload |
| Repository.ReadJobWith | src/main/java/no/ssb/rawdata/converter/job/JobController.java:26 | returns a job exactly when the id is stored with that status and source, and then returns that stored job |
| Repository.ReadJobs | src/main/java/no/ssb/rawdata/converter/job/JobRepository.java:68-80 | returns every row once, each equal to the stored job, in strictly ascending id order |
| Repository.FindAvailableJob | src/main/java/no/ssb/rawdata/converter/job/JobController.java:32-48 | returns nothing, with no change, exactly when no job is claimable; otherwise returns the claimable job with the least id, now ACTIVE, and changes no other row |
| Repository.ClaimShrinksCandidates | src/main/java/no/ssb/rawdata/converter/job/JobController.java:32-48 | after a claim the claimable set is the old one minus the job handed out |
| Repository.JobDone | src/main/java/no/ssb/rawdata/converter/job/JobController.java:73 | reports 1 exactly when a row has that id and source, and then only that row's status changes, to DONE; otherwise nothing changes |
| Repository.JobDoneIdempotent | src/main/java/no/ssb/rawdata/converter/job/JobController.java:71-77 | marking done twice leaves the table as after the first call and reports the same count |
| Controller.IsJobActive | src/main/java/no/ssb/rawdata/converter/job/JobController.java:24-30 | 200 exactly when the job with that id and source is ACTIVE, otherwise 404; the table is unchanged |
| Controller.FindAvailableJobHandler | src/main/java/no/ssb/rawdata/converter/job/JobController.java:32-48 | 404 with no change exactly when nothing is claimable; otherwise 200 with the claimable job of smallest id, now ACTIVE and of the requested source; the body is the stored row and that row is the only one changed |
| Controller.CreateJobWithId | src/main/java/no/ssb/rawdata/converter/job/JobController.java:50-62 | 400 exactly for a malformed id, 409 exactly for a taken id, neither touching the table; otherwise 201 with the new AVAILABLE job, which is the only row added |
| Controller.CreateJobAutoId | src/main/java/no/ssb/rawdata/converter/job/JobController.java:64-69 | always 201 with an AVAILABLE job under the generated id; the insert adds that row only if the id was free |
| Controller.NotifyJobDone | src/main/java/no/ssb/rawdata/converter/job/JobController.java:71-77 | 404 with no change exactly when no row has that id and source; otherwise 200 and that row becomes DONE |
| Controller.CreatedIsReadBack | src/main/java/no/ssb/rawdata/converter/job/JobController.java:58-61 | the body of a 201 from the explicit-id handler equals what a read by its id, status and source returns afterwards |
| Controller.LowerCaseIdRejected | src/main/java/no/ssb/rawdata/converter/job/JobController.java:50-57 | every id containing a lower-case letter is outside the accepted ULID form, so the modelled explicit-id handler answers 400 and stores nothing (the program may differ; see "Left out") |
| Controller.AutoIdCreatedIsReadBack | src/test/java/no/ssb/rawdata/converter/job/JobControllerSpec.java:258-260 | when the generated id was free, the auto-id handler answers 201 with an AVAILABLE job that a read by its id, status and source returns afterwards |
| Controller.SubmitTwice | src/test/java/no/ssb/rawdata/converter/job/JobControllerSpec.java:180-198 | the same id submitted twice gives 201 then 409, and one stored row holding the first payload as AVAILABLE |
| Controller.AutoIdCollisionKeepsStoredRow | src/main/java/no/ssb/rawdata/converter/job/JobController.java:66-68 | if the generated id is taken, the answer is still 201 while the table keeps the old row, so the body is not what is stored |
| Controller.ClaimActiveDone | src/test/java/no/ssb/rawdata/converter/job/JobControllerSpec.java:40-79 | a claimed job was not active before the claim and is active after it; marking it done succeeds, after which it is no longer active and is stored as DONE |
| Queue.StepAdvances | src/main/java/no/ssb/rawdata/converter/job/Job.java:37-41 | no handler removes a row, changes its source or document, or moves its status backwards |
| Queue.RunAdvances | src/main/java/no/ssb/rawdata/converter/job/Job.java:37-41 | the same holds between the start and the end of any run |
| Queue.StatusNeverRegresses | src/main/java/no/ssb/rawdata/converter/job/Job.java:37-41 | between any two moments of a run, a job's status moves only forward |
| Queue.OnlyClaimActivates | src/main/java/no/ssb/rawdata/converter/job/JobController.java:32-48 | only a claim moves a job from AVAILABLE to ACTIVE, and that claim returns the job with 200 |
| Queue.NoDoubleClaim | src/test/java/no/ssb/rawdata/converter/job/JobControllerSpec.java:99-135 | in every run, the jobs handed out by claims have distinct ids |
| Queue.NeverHandedAgain | src/main/java/no/ssb/rawdata/converter/job/JobController.java:32-48 | a job that is no longer AVAILABLE is never handed out again |
| Queue.ClaimsAreFifo | src/test/java/no/ssb/rawdata/converter/job/JobControllerSpec.java:113-135 | repeated claims with one filter hand jobs out in strictly ascending id order |
| Queue.ClaimsHandOutInitiallyClaimable | src/main/java/no/ssb/rawdata/converter/job/JobController.java:32-48 | in a run of claims, each job handed out was claimable under the filter at the start |
| Queue.ClaimsDrainQueue | src/test/java/no/ssb/rawdata/converter/job/JobControllerSpec.java:99-135 | N claims against M claimable jobs: the first min(N, M) answer 200 and the rest 404 |
| Queue.OtherSourcesUntouched | src/main/java/no/ssb/rawdata/converter/job/JobController.java:24-77 | activity checks, and claims, submissions and done-notifications for one source, never change a row of any other source |

## Left out

- HTTP transport, Micronaut routing and JSON (de)serialisation. Each handler's response is an enum status plus an optional job body.
- JDBC and Postgres plumbing (connections, `PGobject` jsonb wrapping, result-set iteration) and the `RuntimeException`s they raise on I/O failure.
- The Postgres collation. Ids are ordered by code point, which agrees with Java's `String.compareTo` (UTF-16 code units) on strings without supplementary characters and with a byte-wise collation on ULID characters.
- Concurrency. Each operation is one atomic step, so the row-locking that prevents double claims under parallel consumers is assumed, not verified. No-double-claim is proved for sequential runs only.
- ULID generation (`new ULID().nextULID()`) depends on the clock and on randomness. It is the parameter `freshId` of `Controller.CreateJobAutoId`, which requires it to be a valid ULID.
- The ULID library's parser is a foreign call. `Ids.ValidUlid` approximates it by the canonical text form: 26 upper-case Crockford Base32 characters, the first at most '7'. The model does not claim that this matches the library exactly: it rejects lower-case letters and the letters I, L, O and U with 400, where the library may decode some of them.
- Controller.LowerCaseIdRejected: the 400 holds for the model's canonical-form parser only. The program's ULID library may decode a lower-case id, and the program then answers 201 or 409 instead of 400.
- Jobs.Get: upper-casing is ASCII-only. Java's `toUpperCase` depends on the default locale and covers all of Unicode. For example, it maps the dotless 'ı' to 'I', and under a Turkish locale it maps 'i' to 'İ'. The model treats neither case.
- Jobs.Create: Java's `new Job()` starts with null fields, and null fields are not modelled. Every job field here is a value, and a source or document is never null.
- `Document`, `PseudoConfig` and `PseudoFuncRule` mirror their Java fields only so that equality is structural. The queue never interprets them.
- `deleteAllJobs` (a test-only reset) and logging.
