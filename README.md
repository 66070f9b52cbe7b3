# Resume router: a verified model

This project models the resume router of a small recruiting backend: applicants
submit, list, read, edit and delete their resumes, and recruiters see every resume,
move a resume from one application status to another, and read the audit log of
those moves. The seven route handlers become methods of a `Store` class. The class
holds the `Resume` table (`resumes: map<int, Resume>`), the `ResumeLog` table
(`logs: seq<ResumeLog>`, in the order rows were written), the user names the
projections read, and a clock that stands in for `createdAt`/`updatedAt`.

The model has three modules:

- `ResumeModel` (`resume_model.dfy`): the rows, the requester, the two response
  projections, `Option`/`Result`, and JavaScript truthiness of an optional string.
- `ResumeQuery` (`resume_query.dfy`): the parts that do not depend on the store.
  These are normalising the `sort` query value, the scope policy (`InListScope`,
  `InDetailScope`), and building the `where` condition field by field. It also
  holds the database client's table operations: `findMany` ordered by
  `createdAt`, `findUnique`, and `findMany` on the log table.
- `ResumeStore` (`resume_store.dfy`): the `Store` class and its handlers. Its
  invariant `Valid()` says rows are stored under their own id, and ids are handed
  out in creation order. Every author and recruiter has a name, timestamps lie
  before the clock, and log rows are appended in `createdAt` order. Two client
  methods, `SubmissionScenario` and `ReviewScenario`, replay a submission by an
  applicant and a review by a recruiter using nothing but the handlers' contracts.

Two behaviours of the code are kept as written:

- Partial update is truthiness-based. An empty `title` or `content`
  leaves the stored field unchanged.
- A status change on a missing resume returns from the transaction callback
  before any write. So it answers not-found and changes neither table. The model
  has exactly this behaviour.

## Model

| member | source | states |
|---|---|---|
| `ResumeQuery.LowerCase` | src/routers/resumes.router.js:46 | lower-casing keeps the length and lower-cases each character |
| `ResumeQuery.LowerCaseIsWord` | src/routers/resumes.router.js:46-48 | a value lower-cases to a lower-case word exactly when it spells that word in any letter case |
| `ResumeQuery.NormalizeSort` | src/routers/resumes.router.js:44-50 | the order is ascending exactly when `sort` is present and spells "asc" in any case; otherwise it is descending, which covers "desc", any other value and an absent `sort` |
| `ResumeQuery.ListCondition` | src/routers/resumes.router.js:52-66 | the list condition selects a resume exactly when it is in list scope: for a recruiter, every resume, or only those with the given status when the filter is truthy; for anyone else, their own resumes, whatever the filter says |
| `ResumeQuery.DetailCondition` | src/routers/resumes.router.js:108-112 | the detail condition keys on the id and selects a resume exactly when it has that id and the requester is a recruiter or its author |
| `ResumeQuery.Select` | src/routers/resumes.router.js:68-69 | the ids kept are exactly the given ids whose rows match the condition, and ascending ids stay ascending |
| `ResumeQuery.FindMany` | src/routers/resumes.router.js:68-76 | each returned row is a stored row matching the condition, every matching row is returned, and the rows strictly increase or decrease in `createdAt` as asked |
| `ResumeQuery.FindUnique` | src/routers/resumes.router.js:114-117 | on a table whose rows sit under their own id, the answer is a row exactly when that row is stored and meets the whole condition (the id and any author or status field), and none when no stored row does |
| `ResumeQuery.ResumeViews` | src/routers/resumes.router.js:78-88 | the projection keeps the order and maps each row to id, author name, title, content, status, createdAt, updatedAt |
| `ResumeQuery.LogsOf` | src/routers/resumes.router.js:282-284 | the log rows kept are exactly those of the given resume, and table order by `createdAt` is kept |
| `ResumeQuery.FindLogs` | src/routers/resumes.router.js:281-289 | the rows returned are exactly the log rows of that resume, strictly newest first |
| `ResumeQuery.LogViews` | src/routers/resumes.router.js:291-301 | the projection keeps the order and maps each log row to id, recruiter name, resumeId, oldStatus, newStatus, reason, createdAt |
| `ResumeQuery.LogsOfAppend` | src/routers/resumes.router.js:252-260 | appending a log row adds it at the end of its own resume's logs and changes no other resume's logs |
| `ResumeStore.Store.Create` | src/routers/resumes.router.js:14-36 | exactly one resume is added under a fresh id; its author is the requester, its title and content are as given, and its status is the default; no existing resume and no log changes |
| `ResumeStore.Store.List` | src/routers/resumes.router.js:39-98 | the answer holds the projection of each resume in list scope and nothing else, strictly ordered by `createdAt` in the normalised direction |
| `ResumeStore.Store.Get` | src/routers/resumes.router.js:101-144 | not-found exactly when the id is absent, or when the requester is neither a recruiter nor the author; otherwise the projection of that resume |
| `ResumeStore.Store.Update` | src/routers/resumes.router.js:147-183 | not-found, with no change, unless the requester authored a resume with that id; otherwise title and content are replaced only when truthy, status, author and createdAt are kept, updatedAt is the current time, and no other resume or log changes |
| `ResumeStore.Store.Delete` | src/routers/resumes.router.js:186-214 | not-found, with no change, unless the requester authored a resume with that id; otherwise exactly that id is removed and returned, and no log changes |
| `ResumeStore.Store.Transition` | src/routers/resumes.router.js:217-272 | not-found, with neither table changed, when the resume is absent; otherwise only its status (and updatedAt) change, and exactly one log row is appended with the recruiter, the resume, the prior status, the persisted status and the reason; this happens even when old and new status are equal |
| `ResumeStore.Store.ListLogs` | src/routers/resumes.router.js:274-312 | the answer holds the projection of each log row of that resume and nothing else, strictly newest first |

## Left out

- Express routing, the `req`/`res` objects, HTTP status codes and message constants: handlers return values, with `NotFound` for the not-found reply.
- Errors passed to `next(error)` are not modelled. These are database failures, a `sort` that is not a string, and a status filter outside the schema's status enum.
- The `requireRoles` guard and the request validators are not part of this model. They appear as preconditions: a status change and the log listing require a recruiter. Body fields arrive already typed, so the forbidden and validation replies are not modelled.
- The database client's transaction isolation and rollback are not modelled. The model is sequential, so a status change runs start to finish, and concurrent transitions are not represented.
- `createdAt`/`updatedAt` are ticks of a clock that advances on every write, so two rows never share a timestamp. Real timestamps can tie, and then `orderBy` leaves their order open.
- Every update sets `updatedAt`, even when neither title nor content is truthy.
- The Prisma schema is not part of this model. `status` is a string, and the default status is a constructor parameter. Ids are handed out in increasing order. Deleting a resume leaves its log rows in place, because the schema's referential action is not visible.
- User lookup is a fixed map from user id to name. Users are never created or deleted here.
- `toLowerCase` is modelled on ASCII letters only. These are the only characters whose lower-case form can spell "asc" or "desc".
- Converting the route parameter with `+id` is not modelled: ids are integers already.
- ResumeQuery.FindMany: the model sorts ids and relies on ids being handed out in creation order, rather than sorting on `createdAt` itself.
