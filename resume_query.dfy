/**
 * The request-independent logic of the resume router: normalising the
 * `sort` query value, building the `where` condition that scopes a query to
 * what the requester may see, and the table operations of the database
 * client (find by key and filter, find many in creation order) on which the
 * handlers rely.
 */
module ResumeQuery {
  import opened ResumeModel

  // ---------------------------------------------------------------------
  // Sort normalisation

  /** `toLowerCase` on one character, for the ASCII letters. */
  function LowerChar(c: char): char
  {
    if 'A' <= c <= 'Z' then (c as int + 32) as char else c
  }

  function LowerCase(s: string): (r: string)
    ensures |r| == |s|
    ensures forall i :: 0 <= i < |s| ==> r[i] == LowerChar(s[i])
  {
    if s == [] then [] else [LowerChar(s[0])] + LowerCase(s[1..])
  }

  /** `s` and `t` spell the same word up to letter case. */
  predicate SameIgnoringCase(s: string, t: string)
  {
    |s| == |t| && forall i :: 0 <= i < |s| ==> LowerChar(s[i]) == LowerChar(t[i])
  }

  /** The requester asked for ascending order, in any letter case. */
  predicate AsksAscending(sort: Option<string>)
  {
    sort.Some? && SameIgnoringCase(sort.value, "asc")
  }

  lemma LowerCaseIsWord(s: string, word: string)
    requires LowerCase(word) == word
    ensures LowerCase(s) == word <==> SameIgnoringCase(s, word)
  {
    if SameIgnoringCase(s, word) {
      assert forall i :: 0 <= i < |word| ==> word[i] == LowerChar(word[i]) by {
        forall i | 0 <= i < |word| ensures word[i] == LowerChar(word[i]) {
          assert LowerCase(word)[i] == LowerChar(word[i]);
        }
      }
    }
  }

  /** The two values `orderBy` accepts: "asc" and "desc". */
  datatype SortOrder = Asc | Desc

  /** The `sort` query value, lower-cased; anything but "asc" or "desc",
      an absent value included, becomes "desc". */
  method NormalizeSort(sort: Option<string>) returns (order: SortOrder)
    ensures order == Asc <==> AsksAscending(sort)
  {
    var lowered := if sort.Some? then Some(LowerCase(sort.value)) else None;
    if lowered == Some("asc") {
      order := Asc;
    } else {
      // "desc", and every value other than "asc" or "desc"
      order := Desc;
    }
    if sort.Some? {
      LowerCaseIsWord(sort.value, "asc");
    }
  }

  // ---------------------------------------------------------------------
  // Scope policy and query conditions

  /** Which resumes the list shows: a recruiter sees all of them, narrowed to
      one status when a truthy status filter is given; anyone else sees the
      resumes they wrote, whatever the filter says. */
  predicate InListScope(user: User, status: Option<string>, r: Resume)
  {
    if user.role == Recruiter then
      Truthy(status) ==> r.status == status.value
    else
      r.authorId == user.id
  }

  /** Which resume the detail view may show: any one to a recruiter, one's
      own to anyone else. */
  predicate InDetailScope(user: User, r: Resume)
  {
    user.role == Recruiter || r.authorId == user.id
  }

  /** A database `where` object: each present field must match exactly. */
  datatype Where = Where(id: Option<int>, authorId: Option<int>, status: Option<string>)

  predicate Matches(w: Where, r: Resume)
  {
    && (w.id.Some? ==> r.id == w.id.value)
    && (w.authorId.Some? ==> r.authorId == w.authorId.value)
    && (w.status.Some? ==> r.status == w.status.value)
  }

  /** The condition of the list query, built field by field. */
  method ListCondition(user: User, status: Option<string>) returns (w: Where)
    ensures w.id.None?
    ensures forall r :: Matches(w, r) <==> InListScope(user, status, r)
  {
    w := Where(None, None, None);
    if user.role == Recruiter {
      if Truthy(status) {
        w := w.(status := status);
      }
    } else {
      w := w.(authorId := Some(user.id));
    }
  }

  /** The condition of the detail query: the id, and the author for anyone
      but a recruiter. */
  method DetailCondition(user: User, id: int) returns (w: Where)
    ensures w.id == Some(id)
    ensures forall r :: Matches(w, r) <==> r.id == id && InDetailScope(user, r)
  {
    w := Where(Some(id), None, None);
    if user.role != Recruiter {
      w := w.(authorId := Some(user.id));
    }
  }

  // ---------------------------------------------------------------------
  // The Resume table: rows keyed by id, ordered by creation time

  /** Every row is stored under its own id. */
  predicate Keyed(rows: map<int, Resume>)
  {
    forall id | id in rows :: rows[id].id == id
  }

  /** Ids are handed out in creation order, so a smaller id means an older
      row: ordering by `createdAt` is ordering by id. */
  predicate Chronological(rows: map<int, Resume>)
  {
    forall a, b | a in rows && b in rows && a < b :: rows[a].createdAt < rows[b].createdAt
  }

  predicate Ascending(s: seq<int>)
  {
    forall i, j :: 0 <= i < j < |s| ==> s[i] < s[j]
  }

  function Reverse<T(!new)>(s: seq<T>): (r: seq<T>)
    ensures |r| == |s|
    ensures forall k :: 0 <= k < |s| ==> r[k] == s[|s| - 1 - k]
    ensures forall x :: x in r <==> x in s
  {
    if s == [] then []
    else
      var r := Reverse(s[1..]) + [s[0]];
      assert forall x :: x in s <==> x == s[0] || x in s[1..];
      assert forall x :: x in r <==> x == s[0] || x in Reverse(s[1..]);
      r
  }

  lemma {:induction false} HasMinimum(ks: set<int>)
    requires ks != {}
    ensures exists m :: m in ks && forall k | k in ks :: m <= k
  {
    assert (forall k :: k !in ks) ==> ks == {};
    var x :| x in ks;
    if ks == {x} {
      assert forall k | k in ks :: x <= k;
    } else {
      var rest := ks - {x};
      HasMinimum(rest);
      var m :| m in rest && forall k | k in rest :: m <= k;
      var least := if x < m then x else m;
      forall k | k in ks ensures least <= k {
        if k != x { assert k in rest; }
      }
      assert least in ks;
    }
  }
  /** The smallest key of a non-empty table. */
  function Least(ks: set<int>): (m: int)
    requires ks != {}
    ensures m in ks && forall k | k in ks :: m <= k
  {
    HasMinimum(ks);
    var m :| m in ks && forall k | k in ks :: m <= k;
    m
  }

  /** The keys of a table, smallest first. */
  function SortedIds(ks: set<int>): (r: seq<int>)
    ensures forall k :: k in r <==> k in ks
    ensures Ascending(r)
    decreases |ks|
  {
    if ks == {} then []
    else
      var m := Least(ks);
      var rest := SortedIds(ks - {m});
      assert forall k | 0 <= k < |rest| :: m < rest[k] by {
        forall k | 0 <= k < |rest| ensures m < rest[k] { assert rest[k] in ks - {m}; }
      }
      var r := [m] + rest;
      assert forall k :: k in r <==> k == m || k in rest;
      r
  }

  /** The ids, in the order given, of the rows the condition selects. */
  function Select(rows: map<int, Resume>, ids: seq<int>, w: Where): (sel: seq<int>)
    requires forall id | id in ids :: id in rows
    ensures forall id :: id in sel <==> id in ids && Matches(w, rows[id])
    ensures Ascending(ids) ==> Ascending(sel)
  {
    if ids == [] then []
    else
      var first, tail := ids[0], ids[1..];
      assert forall id :: id in ids <==> id == first || id in tail;
      var rest := Select(rows, tail, w);
      if Matches(w, rows[first]) then
        assert Ascending(ids) ==> forall k | 0 <= k < |rest| :: first < rest[k] by {
          if Ascending(ids) {
            forall k | 0 <= k < |rest| ensures first < rest[k] {
              assert rest[k] in tail;
              var j :| 0 <= j < |tail| && tail[j] == rest[k];
              assert ids[j + 1] == rest[k];
            }
          }
        }
        var r := [first] + rest;
        assert forall id :: id in r <==> id == first || id in rest;
        r
      else
        rest
  }

  /** Ascending ids put in the requested direction. */
  function Directed(sel: seq<int>, dir: SortOrder): (ids: seq<int>)
    requires Ascending(sel)
    ensures forall id :: id in ids <==> id in sel
    ensures forall i, j :: 0 <= i < j < |ids| ==> if dir == Asc then ids[i] < ids[j] else ids[i] > ids[j]
  {
    if dir == Asc then sel
    else
      var ids := Reverse(sel);
      assert forall i, j :: 0 <= i < j < |ids| ==> ids[i] > ids[j] by {
        forall i, j | 0 <= i < j < |ids| ensures ids[i] > ids[j] {
          assert ids[i] == sel[|sel| - 1 - i] && ids[j] == sel[|sel| - 1 - j];
        }
      }
      ids
  }

  /** `findMany` with a `where` condition, ordered by `createdAt` in the
      requested direction. */
  method FindMany(rows: map<int, Resume>, w: Where, dir: SortOrder) returns (rs: seq<Resume>)
    requires Keyed(rows) && Chronological(rows)
    ensures forall k :: 0 <= k < |rs| ==> rs[k].id in rows && rows[rs[k].id] == rs[k] && Matches(w, rs[k])
    ensures forall id | id in rows && Matches(w, rows[id]) :: exists k | 0 <= k < |rs| :: rs[k].id == id
    ensures forall i, j :: 0 <= i < j < |rs| ==>
              if dir == Asc then rs[i].createdAt < rs[j].createdAt else rs[i].createdAt > rs[j].createdAt
  {
    var ids := Directed(Select(rows, SortedIds(rows.Keys), w), dir);
    rs := RowsOf(rows, ids);
    forall k | 0 <= k < |rs| ensures rs[k].id in rows && rows[rs[k].id] == rs[k] && Matches(w, rs[k]) {
      assert ids[k] in ids;
    }
    forall i, j | 0 <= i < j < |rs|
      ensures if dir == Asc then rs[i].createdAt < rs[j].createdAt else rs[i].createdAt > rs[j].createdAt
    {
      assert ids[i] in ids && ids[j] in ids;
      assert rs[i] == rows[ids[i]] && rs[j] == rows[ids[j]];
    }
    forall id | id in rows && Matches(w, rows[id]) ensures exists k | 0 <= k < |rs| :: rs[k].id == id {
      var k :| 0 <= k < |ids| && ids[k] == id;
      assert rs[k] == rows[id];
    }
  }

  /** The rows stored under the given ids, in the order given. */
  function RowsOf(rows: map<int, Resume>, ids: seq<int>): (rs: seq<Resume>)
    requires forall k | 0 <= k < |ids| :: ids[k] in rows
    ensures |rs| == |ids|
    ensures forall k :: 0 <= k < |ids| ==> rs[k] == rows[ids[k]]
  {
    if ids == [] then [] else [rows[ids[0]]] + RowsOf(rows, ids[1..])
  }

  /** `findUnique`: the row with the condition's id, if it meets the rest of
      the condition. */
  function FindUnique(rows: map<int, Resume>, w: Where): (r: Option<Resume>)
    requires Keyed(rows) && w.id.Some?
    ensures forall x :: r == Some(x) <==> x in rows.Values && Matches(w, x)
  {
    assert forall x | x in rows.Values :: x.id in rows && rows[x.id] == x by {
      forall x | x in rows.Values ensures x.id in rows && rows[x.id] == x {
        assert (forall k | k in rows :: rows[k] != x) ==> x !in rows.Values;
        var k :| k in rows && rows[k] == x;
      }
    }
    if w.id.value in rows && Matches(w, rows[w.id.value]) then Some(rows[w.id.value]) else None
  }

  /** The list projection of each row, with its author's name. */
  function ResumeViews(found: seq<Resume>, names: map<int, string>): (data: seq<ResumeView>)
    requires forall k | 0 <= k < |found| :: found[k].authorId in names
    ensures |data| == |found|
    ensures forall k | 0 <= k < |found| :: data[k] == ResumeViewOf(found[k], names[found[k].authorId])
  {
    if found == [] then []
    else [ResumeViewOf(found[0], names[found[0].authorId])] + ResumeViews(found[1..], names)
  }

  // ---------------------------------------------------------------------
  // The ResumeLog table: rows in the order they were appended

  /** The log rows of one resume, in table order. */
  function LogsOf(logs: seq<ResumeLog>, resumeId: int): (r: seq<ResumeLog>)
    ensures forall l :: l in r <==> l in logs && l.resumeId == resumeId
    ensures LogsIncreasing(logs) ==> LogsIncreasing(r)
  {
    if logs == [] then []
    else
      var first, tail := logs[0], logs[1..];
      assert forall l :: l in logs <==> l == first || l in tail;
      var rest := LogsOf(tail, resumeId);
      if first.resumeId == resumeId then
        assert LogsIncreasing(logs) ==> forall k | 0 <= k < |rest| :: first.createdAt < rest[k].createdAt by {
          if LogsIncreasing(logs) {
            forall k | 0 <= k < |rest| ensures first.createdAt < rest[k].createdAt {
              assert rest[k] in tail;
              var j :| 0 <= j < |tail| && tail[j] == rest[k];
              assert logs[j + 1] == rest[k];
            }
          }
        }
        var r := [first] + rest;
        assert forall l :: l in r <==> l == first || l in rest;
        r
      else
        rest
  }

  /** `findMany` on the log table for one resume, ordered by `createdAt`
      descending. The table is kept in append order, so that order is the
      reverse of the table's. */
  method FindLogs(logs: seq<ResumeLog>, resumeId: int) returns (found: seq<ResumeLog>)
    requires LogsIncreasing(logs)
    ensures forall l :: l in found <==> l in logs && l.resumeId == resumeId
    ensures forall j, k | 0 <= j < k < |found| :: found[j].createdAt > found[k].createdAt
  {
    var mine := LogsOf(logs, resumeId);
    found := Reverse(mine);
    forall j, k | 0 <= j < k < |found| ensures found[j].createdAt > found[k].createdAt {
      assert found[j] == mine[|mine| - 1 - j] && found[k] == mine[|mine| - 1 - k];
    }
  }

  /** Log rows strictly increase in `createdAt` along the table. */
  predicate LogsIncreasing(logs: seq<ResumeLog>)
  {
    forall i, j :: 0 <= i < j < |logs| ==> logs[i].createdAt < logs[j].createdAt
  }

  /** Appending a log row adds it to the end of its own resume's logs and to
      no other resume's. */
  lemma {:induction false} LogsOfAppend(logs: seq<ResumeLog>, l: ResumeLog, resumeId: int)
    ensures LogsOf(logs + [l], resumeId)
         == LogsOf(logs, resumeId) + (if l.resumeId == resumeId then [l] else [])
  {
    if logs == [] {
      assert [] + [l] == [l];
    } else {
      assert (logs + [l])[1..] == logs[1..] + [l];
      LogsOfAppend(logs[1..], l, resumeId);
    }
  }

  /** The log projection of each row, with its recruiter's name. */
  function LogViews(found: seq<ResumeLog>, names: map<int, string>): (data: seq<LogView>)
    requires forall k | 0 <= k < |found| :: found[k].recruiterId in names
    ensures |data| == |found|
    ensures forall k | 0 <= k < |found| :: data[k] == LogViewOf(found[k], names[found[k].recruiterId])
  {
    if found == [] then []
    else [LogViewOf(found[0], names[found[0].recruiterId])] + LogViews(found[1..], names)
  }
}
