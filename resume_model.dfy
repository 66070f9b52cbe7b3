/**
 * The entities of the resume service: the rows of the `Resume` and
 * `ResumeLog` tables, the authenticated requester, the projections the
 * handlers send back, and the result of an operation that can miss.
 */
module ResumeModel {

  datatype Option<T> = None | Some(value: T)

  /** What a handler answers: the payload, or the single not-found reply
      (a missing row and a row outside the caller's scope look the same). */
  datatype Result<T> = Ok(value: T) | NotFound

  datatype Role = Applicant | Recruiter

  /** The requester as the authentication layer supplies it. */
  datatype User = User(id: int, role: Role)

  /** A row of the `Resume` table. Timestamps are ticks of the store's clock. */
  datatype Resume = Resume(
    id: int,
    authorId: int,
    title: string,
    content: string,
    status: string,
    createdAt: nat,
    updatedAt: nat)

  /** A row of the `ResumeLog` table: one status transition. */
  datatype ResumeLog = ResumeLog(
    id: int,
    recruiterId: int,
    resumeId: int,
    oldStatus: string,
    newStatus: string,
    reason: string,
    createdAt: nat)

  /** The resume as list and detail responses show it: the author's name
      instead of the author's id. */
  datatype ResumeView = ResumeView(
    id: int,
    authorName: string,
    title: string,
    content: string,
    status: string,
    createdAt: nat,
    updatedAt: nat)

  /** A log row as the log listing shows it: the recruiter's name instead of
      the recruiter's id. */
  datatype LogView = LogView(
    id: int,
    recruiterName: string,
    resumeId: int,
    oldStatus: string,
    newStatus: string,
    reason: string,
    createdAt: nat)

  function ResumeViewOf(r: Resume, authorName: string): ResumeView
  {
    ResumeView(r.id, authorName, r.title, r.content, r.status, r.createdAt, r.updatedAt)
  }

  function LogViewOf(l: ResumeLog, recruiterName: string): LogView
  {
    LogView(l.id, recruiterName, l.resumeId, l.oldStatus, l.newStatus, l.reason, l.createdAt)
  }

  /** JavaScript truthiness of an optional string: absent and "" are falsy. */
  predicate Truthy(s: Option<string>)
  {
    s.Some? && s.value != ""
  }
}
