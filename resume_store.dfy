/**
 * The resume router's handlers over an in-memory database: the `Resume`
 * table is a map from id to row, the `ResumeLog` table a sequence of rows in
 * the order they were written. Every write reads the time from a clock that
 * then advances, so `createdAt` and `updatedAt` are ticks of that clock.
 */
module ResumeStore {
  import opened ResumeModel
  import opened ResumeQuery

  class Store {
    /** User names by user id: the part of the `User` table the projections read. */
    const users: map<int, string>
    /** The status a new resume starts with (the schema's default). */
    const initialStatus: string

    var resumes: map<int, Resume>
    var logs: seq<ResumeLog>
    var nextResumeId: int
    var nextLogId: int
    var clock: nat

    ghost predicate Valid()
      reads this
    {
      && Keyed(resumes)
      && Chronological(resumes)
      && (forall id | id in resumes ::
            && id < nextResumeId
            && resumes[id].authorId in users
            && resumes[id].createdAt < clock
            && resumes[id].updatedAt < clock)
      && (forall i | 0 <= i < |logs| ::
            && logs[i].id < nextLogId
            && logs[i].recruiterId in users
            && logs[i].createdAt < clock)
      && LogsIncreasing(logs)
    }

    constructor (users: map<int, string>, initialStatus: string)
      ensures Valid()
      ensures this.users == users && this.initialStatus == initialStatus
      ensures resumes == map[] && logs == []
    {
      this.users := users;
      this.initialStatus := initialStatus;
      resumes := map[];
      logs := [];
      nextResumeId := 1;
      nextLogId := 1;
      clock := 0;
    }

    /** The list of resumes the requester may see, projected, ordered by
        creation time in the normalised direction. */
    method List(user: User, sort: Option<string>, status: Option<string>) returns (data: seq<ResumeView>)
      requires Valid()
      ensures forall k | 0 <= k < |data| ::
                && data[k].id in resumes
                && InListScope(user, status, resumes[data[k].id])
                && data[k] == ResumeViewOf(resumes[data[k].id], users[resumes[data[k].id].authorId])
      ensures forall id | id in resumes && InListScope(user, status, resumes[id]) ::
                exists k | 0 <= k < |data| :: data[k].id == id
      ensures forall i, j | 0 <= i < j < |data| ::
                if AsksAscending(sort) then data[i].createdAt < data[j].createdAt
                else data[i].createdAt > data[j].createdAt
    {
      var dir := NormalizeSort(sort);
      var w := ListCondition(user, status);
      var table, names := resumes, users;
      var found := FindMany(table, w, dir);
      data := ResumeViews(found, names);
      forall k | 0 <= k < |data|
        ensures && data[k].id in table
                && InListScope(user, status, table[data[k].id])
                && data[k] == ResumeViewOf(table[data[k].id], names[table[data[k].id].authorId])
      {
        var r := found[k];
        assert r.id in table && table[r.id] == r && Matches(w, r);
        assert data[k] == ResumeViewOf(r, names[r.authorId]);
      }
      forall i, j | 0 <= i < j < |data|
        ensures if AsksAscending(sort) then data[i].createdAt < data[j].createdAt
                else data[i].createdAt > data[j].createdAt
      {
        assert data[i].createdAt == found[i].createdAt && data[j].createdAt == found[j].createdAt;
      }
      forall id | id in table && InListScope(user, status, table[id])
        ensures exists k | 0 <= k < |data| :: data[k].id == id
      {
        var k :| 0 <= k < |found| && found[k].id == id;
        assert data[k] == ResumeViewOf(found[k], names[found[k].authorId]);
      }
    }

    /** One resume, projected; not found when it is absent or outside the
        requester's scope. */
    method Get(user: User, id: int) returns (res: Result<ResumeView>)
      requires Valid()
      ensures res.Ok? <==> id in resumes && InDetailScope(user, resumes[id])
      ensures res.Ok? ==> res.value == ResumeViewOf(resumes[id], users[resumes[id].authorId])
    {
      var w := DetailCondition(user, id);
      var found := FindUnique(resumes, w);
      if found.None? {
        return NotFound;
      }
      res := Ok(ResumeViewOf(found.value, users[found.value.authorId]));
    }

    /** A new resume by the requester, with the default status. */
    method Create(user: User, title: string, content: string) returns (data: Resume)
      requires Valid()
      requires user.id in users
      modifies this
      ensures Valid()
      ensures data.id !in old(resumes) && resumes == old(resumes)[data.id := data]
      ensures data.authorId == user.id && data.title == title && data.content == content
      ensures data.status == initialStatus
      ensures data.createdAt == data.updatedAt == old(clock)
      ensures forall id | id in old(resumes) :: old(resumes)[id].createdAt < data.createdAt
      ensures logs == old(logs)
    {
      data := Resume(nextResumeId, user.id, title, content, initialStatus, clock, clock);
      resumes := resumes[data.id := data];
      nextResumeId := nextResumeId + 1;
      clock := clock + 1;
    }

    /** A partial update of the requester's own resume: a title or content
        replaces the stored one only when truthy. */
    method Update(user: User, id: int, title: Option<string>, content: Option<string>) returns (res: Result<Resume>)
      requires Valid()
      modifies this
      ensures Valid()
      ensures res.Ok? <==> id in old(resumes) && old(resumes)[id].authorId == user.id
      ensures res.NotFound? ==> resumes == old(resumes)
      ensures res.Ok? ==>
                var before := old(resumes)[id];
                && res.value.id == id
                && res.value.title == (if Truthy(title) then title.value else before.title)
                && res.value.content == (if Truthy(content) then content.value else before.content)
                && res.value.status == before.status
                && res.value.authorId == before.authorId
                && res.value.createdAt == before.createdAt
                && res.value.updatedAt == old(clock)
                && resumes == old(resumes)[id := res.value]
      ensures logs == old(logs)
    {
      var w := Where(Some(id), Some(user.id), None);
      var existed := FindUnique(resumes, w);
      if existed.None? {
        return NotFound;
      }
      var now := clock;
      clock := clock + 1;
      var patched := existed.value.(
        title := if Truthy(title) then title.value else existed.value.title,
        content := if Truthy(content) then content.value else existed.value.content,
        updatedAt := now);
      resumes := resumes[id := patched];
      res := Ok(patched);
    }

    /** Deletes the requester's own resume and answers its id. */
    method Delete(user: User, id: int) returns (res: Result<int>)
      requires Valid()
      modifies this
      ensures Valid()
      ensures res.Ok? <==> id in old(resumes) && old(resumes)[id].authorId == user.id
      ensures res.Ok? ==> res.value == id && resumes == old(resumes) - {id}
      ensures res.NotFound? ==> resumes == old(resumes)
      ensures logs == old(logs)
    {
      var w := Where(Some(id), Some(user.id), None);
      var existed := FindUnique(resumes, w);
      if existed.None? {
        return NotFound;
      }
      resumes := resumes - {id};
      res := Ok(existed.value.id);
    }

    /** A recruiter sets a resume's status and records the transition in the
        log, in one transaction; a missing resume changes nothing. */
    method Transition(recruiter: User, id: int, status: string, reason: string) returns (res: Result<ResumeLog>)
      requires Valid()
      requires recruiter.role == Recruiter && recruiter.id in users
      modifies this
      ensures Valid()
      ensures res.Ok? <==> id in old(resumes)
      ensures res.NotFound? ==> resumes == old(resumes) && logs == old(logs)
      ensures res.Ok? ==> id in resumes
      ensures res.Ok? && id in resumes ==>
                var before := old(resumes)[id];
                var after := resumes[id];
                && resumes == old(resumes)[id := after]
                && after == before.(status := status, updatedAt := old(clock))
                && logs == old(logs) + [res.value]
                && res.value.recruiterId == recruiter.id
                && res.value.resumeId == id
                && res.value.oldStatus == before.status
                && res.value.newStatus == after.status
                && res.value.reason == reason
                && res.value.createdAt == old(clock) + 1
                && (forall l | l in old(logs) :: l.id != res.value.id && l.createdAt < res.value.createdAt)
                && LogsOf(logs, id) == LogsOf(old(logs), id) + [res.value]
    {
      var existed := FindUnique(resumes, Where(Some(id), None, None));
      if existed.None? {
        // the transaction callback returns before any write
        return NotFound;
      }
      var now := clock;
      clock := clock + 1;
      var updated := existed.value.(status := status, updatedAt := now);
      resumes := resumes[id := updated];
      var stamp := clock;
      clock := clock + 1;
      var log := ResumeLog(nextLogId, recruiter.id, existed.value.id, existed.value.status, updated.status, reason, stamp);
      LogsOfAppend(logs, log, id);
      logs := logs + [log];
      nextLogId := nextLogId + 1;
      res := Ok(log);
    }

    /** The log rows of one resume, projected, newest first. */
    method ListLogs(requester: User, resumeId: int) returns (data: seq<LogView>)
      requires Valid()
      requires requester.role == Recruiter
      ensures forall k | 0 <= k < |data| :: exists i | 0 <= i < |logs| ::
                logs[i].resumeId == resumeId && data[k] == LogViewOf(logs[i], users[logs[i].recruiterId])
      ensures forall i | 0 <= i < |logs| && logs[i].resumeId == resumeId ::
                LogViewOf(logs[i], users[logs[i].recruiterId]) in data
      ensures forall j, k | 0 <= j < k < |data| :: data[j].createdAt > data[k].createdAt
    {
      var table, names := logs, users;
      var found := FindLogs(table, resumeId);
      forall k | 0 <= k < |found| ensures found[k].recruiterId in names {
        assert found[k] in found;
        var i :| 0 <= i < |table| && table[i] == found[k];
      }
      data := LogViews(found, names);
      forall k | 0 <= k < |data|
        ensures exists i | 0 <= i < |table| ::
                  table[i].resumeId == resumeId && data[k] == LogViewOf(table[i], names[table[i].recruiterId])
      {
        assert found[k] in found;
        var i :| 0 <= i < |table| && table[i] == found[k];
        assert data[k] == LogViewOf(table[i], names[table[i].recruiterId]);
      }
      forall i | 0 <= i < |table| && table[i].resumeId == resumeId
        ensures LogViewOf(table[i], names[table[i].recruiterId]) in data
      {
        assert table[i] in table;
        var k :| 0 <= k < |found| && found[k] == table[i];
        assert data[k] == LogViewOf(table[i], names[table[i].recruiterId]);
      }
      forall j, k | 0 <= j < k < |data| ensures data[j].createdAt > data[k].createdAt {
        assert data[j].createdAt == found[j].createdAt && data[k].createdAt == found[k].createdAt;
      }
    }
  }

  /** An applicant submits a resume: the applicant lists it, another
      applicant can neither see nor change it. */
  method SubmissionScenario()
  {
    var applicant, other := User(1, Applicant), User(3, Applicant);
    var store := new Store(map[1 := "Ann", 3 := "Cy"], "APPLY");

    var created := store.Create(applicant, "Backend Engineer", "5 yrs exp");
    var mine := store.List(applicant, None, None);
    assert created.id in store.resumes && InListScope(applicant, None, store.resumes[created.id]);
    assert exists k | 0 <= k < |mine| :: mine[k].id == created.id;
    assert forall k | 0 <= k < |mine| :: mine[k] == ResumeViewOf(created, "Ann");
    assert ResumeViewOf(created, "Ann").title == "Backend Engineer";
    assert ResumeViewOf(created, "Ann").status == "APPLY";

    var theirs := store.List(other, None, None);
    assert forall k | 0 <= k < |theirs| :: theirs[k].id != created.id;
    var hidden := store.Get(other, created.id);
    assert hidden == NotFound;
    var refused := store.Update(other, created.id, Some("Mine now"), None);
    assert refused == NotFound;
  }

  /** A recruiter moves a submitted resume to an interview stage: the log
      holds that one transition and the detail view shows the new status. */
  method ReviewScenario()
  {
    var applicant, recruiter := User(1, Applicant), User(2, Recruiter);
    var store := new Store(map[1 := "Ann", 2 := "Bo"], "APPLY");
    var created := store.Create(applicant, "Backend Engineer", "5 yrs exp");

    var moved := store.Transition(recruiter, created.id, "INTERVIEW1", "strong portfolio");
    assert moved.Ok?;
    var trail := store.ListLogs(recruiter, created.id);
    var entry := LogViewOf(moved.value, "Bo");
    assert entry in trail;
    assert forall k | 0 <= k < |trail| :: trail[k] == entry;
    assert entry.oldStatus == "APPLY" && entry.newStatus == "INTERVIEW1";
    assert entry.reason == "strong portfolio";

    var seen := store.Get(recruiter, created.id);
    assert seen.Ok? && seen.value.status == "INTERVIEW1";

    var missing := store.Transition(recruiter, created.id + 1, "PASS", "no such resume");
    assert missing == NotFound;
  }
}
