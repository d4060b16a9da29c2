/** The database queries the handlers issue, on the two collections as sequences of documents in
    storage order: `find_one`, `find` with its filter and sort, `delete_many` and `delete_one`. */
module Queries {
  import opened Wrappers
  import opened Text
  import opened Employees
  import opened AttendanceRules

  // ---------------------------------------------------------------- employees

  /** `find_one({"employee_id": id})` from position `from` on: the first matching document. */
  function FindEmployeeFrom(emps: seq<Employee>, id: string, from: nat): (r: Option<nat>)
    requires from <= |emps|
    ensures r.Some? ==> from <= r.value < |emps| && emps[r.value].employeeId == id
    ensures r.Some? ==> forall k :: from <= k < r.value ==> emps[k].employeeId != id
    ensures r.None? ==> forall k :: from <= k < |emps| ==> emps[k].employeeId != id
    decreases |emps| - from
  {
    if from == |emps| then None
    else if emps[from].employeeId == id then Some(from)
    else FindEmployeeFrom(emps, id, from + 1)
  }

  function FindEmployee(emps: seq<Employee>, id: string): (r: Option<nat>)
    ensures r.Some? ==> r.value < |emps| && emps[r.value].employeeId == id
    ensures r.None? <==> forall k :: 0 <= k < |emps| ==> emps[k].employeeId != id
  {
    FindEmployeeFrom(emps, id, 0)
  }

  /** `find_one({"email": email})` from position `from` on. */
  function FindEmailFrom(emps: seq<Employee>, email: string, from: nat): (r: Option<nat>)
    requires from <= |emps|
    ensures r.Some? ==> from <= r.value < |emps| && emps[r.value].email == email
    ensures r.Some? ==> forall k :: from <= k < r.value ==> emps[k].email != email
    ensures r.None? ==> forall k :: from <= k < |emps| ==> emps[k].email != email
    decreases |emps| - from
  {
    if from == |emps| then None
    else if emps[from].email == email then Some(from)
    else FindEmailFrom(emps, email, from + 1)
  }

  function FindEmail(emps: seq<Employee>, email: string): (r: Option<nat>)
    ensures r.Some? ==> r.value < |emps| && emps[r.value].email == email
    ensures r.Some? ==> forall k :: 0 <= k < r.value ==> emps[k].email != email
    ensures r.None? <==> forall k :: 0 <= k < |emps| ==> emps[k].email != email
  {
    FindEmailFrom(emps, email, 0)
  }

  /** No two employee documents share an employee id. */
  ghost predicate UniqueIds(emps: seq<Employee>) {
    forall i, j :: 0 <= i < j < |emps| ==> emps[i].employeeId != emps[j].employeeId
  }

  /** No two employee documents share an E-mail. */
  ghost predicate UniqueEmails(emps: seq<Employee>) {
    forall i, j :: 0 <= i < j < |emps| ==> emps[i].email != emps[j].email
  }

  /** The employee ids in the collection. */
  function EmployeeIds(emps: seq<Employee>): (ids: set<string>)
    ensures forall k :: 0 <= k < |emps| ==> emps[k].employeeId in ids
  {
    set k | 0 <= k < |emps| :: emps[k].employeeId
  }

  /** An id is in the collection exactly when the lookup finds it. */
  lemma EmployeeIdsFind(emps: seq<Employee>, id: string)
    ensures id in EmployeeIds(emps) <==> FindEmployee(emps, id).Some?
  {
    if id in EmployeeIds(emps) {
      var k :| 0 <= k < |emps| && emps[k].employeeId == id;
    }
  }

  /** There are no more distinct ids than documents. */
  lemma {:induction false} EmployeeIdsBound(emps: seq<Employee>)
    ensures |EmployeeIds(emps)| <= |emps|
  {
    if emps != [] {
      var rest := emps[1..];
      EmployeeIdsBound(rest);
      assert EmployeeIds(emps) == EmployeeIds(rest) + {emps[0].employeeId} by {
        forall id | id in EmployeeIds(emps) ensures id in EmployeeIds(rest) + {emps[0].employeeId} {
          var k :| 0 <= k < |emps| && emps[k].employeeId == id;
          if k > 0 { assert rest[k - 1].employeeId == id; }
        }
      }
    }
  }

  /** `delete_one` at the position that matched. */
  function RemoveAt<T>(s: seq<T>, k: nat): (r: seq<T>)
    requires k < |s|
    ensures |r| == |s| - 1
    ensures forall i :: 0 <= i < k ==> r[i] == s[i]
    ensures forall i :: k <= i < |r| ==> r[i] == s[i + 1]
  {
    s[..k] + s[k + 1..]
  }

  /** Removing the only document with a given id removes exactly that id. */
  lemma RemoveEmployeeIds(emps: seq<Employee>, k: nat)
    requires k < |emps| && UniqueIds(emps)
    ensures EmployeeIds(RemoveAt(emps, k)) == EmployeeIds(emps) - {emps[k].employeeId}
  {
    RemoveKeepsOtherIds(emps, k);
    RemoveDropsId(emps, k);
  }

  lemma RemoveKeepsOtherIds(emps: seq<Employee>, k: nat)
    requires k < |emps|
    ensures EmployeeIds(emps) - {emps[k].employeeId} <= EmployeeIds(RemoveAt(emps, k))
  {
    var r := RemoveAt(emps, k);
    forall id | id in EmployeeIds(emps) - {emps[k].employeeId} ensures id in EmployeeIds(r) {
      var j :| 0 <= j < |emps| && emps[j].employeeId == id;
      var j' := if j < k then j else j - 1;
      assert r[j'] == emps[j];
    }
  }

  lemma RemoveDropsId(emps: seq<Employee>, k: nat)
    requires k < |emps| && UniqueIds(emps)
    ensures EmployeeIds(RemoveAt(emps, k)) <= EmployeeIds(emps) - {emps[k].employeeId}
  {
    var r := RemoveAt(emps, k);
    forall id | id in EmployeeIds(r) ensures id in EmployeeIds(emps) - {emps[k].employeeId} {
      var j :| 0 <= j < |r| && r[j].employeeId == id;
      var j' := if j < k then j else j + 1;
      assert emps[j'] == r[j];
    }
  }

  /** Removing a document keeps the collection free of duplicate ids and E-mails. */
  lemma RemoveEmployeeUnique(emps: seq<Employee>, k: nat)
    requires k < |emps| && UniqueIds(emps) && UniqueEmails(emps)
    ensures UniqueIds(RemoveAt(emps, k)) && UniqueEmails(RemoveAt(emps, k))
  {
    var r := RemoveAt(emps, k);
    forall i, j | 0 <= i < j < |r| ensures r[i].employeeId != r[j].employeeId && r[i].email != r[j].email {
      var i' := if i < k then i else i + 1;
      var j' := if j < k then j else j + 1;
      assert r[i] == emps[i'] && r[j] == emps[j'];
    }
  }

  // ---------------------------------------------------------------- attendance

  /** `find_one({"employee_id": id, "date": date})` from position `from` on. */
  function FindRecordFrom(att: seq<Record>, id: string, date: string, from: nat): (r: Option<nat>)
    requires from <= |att|
    ensures r.Some? ==> from <= r.value < |att| && att[r.value].employeeId == id && att[r.value].date == date
    ensures r.Some? ==> forall k :: from <= k < r.value ==> !(att[k].employeeId == id && att[k].date == date)
    ensures r.None? ==> forall k :: from <= k < |att| ==> !(att[k].employeeId == id && att[k].date == date)
    decreases |att| - from
  {
    if from == |att| then None
    else if att[from].employeeId == id && att[from].date == date then Some(from)
    else FindRecordFrom(att, id, date, from + 1)
  }

  function FindRecord(att: seq<Record>, id: string, date: string): (r: Option<nat>)
    ensures r.Some? ==> r.value < |att| && att[r.value].employeeId == id && att[r.value].date == date
    ensures r.Some? ==> forall k :: 0 <= k < r.value ==> !(att[k].employeeId == id && att[k].date == date)
    ensures r.None? <==> forall k :: 0 <= k < |att| ==> !(att[k].employeeId == id && att[k].date == date)
  {
    FindRecordFrom(att, id, date, 0)
  }

  /** At most one record per (employee id, date). */
  ghost predicate UniqueKeys(att: seq<Record>) {
    forall i, j :: 0 <= i < j < |att| ==>
      !(att[i].employeeId == att[j].employeeId && att[i].date == att[j].date)
  }

  /** Replacing a record by one with the same key keeps every lookup where it was. */
  lemma FindRecordAfterUpdate(att: seq<Record>, i: nat, v: Record, id: string, date: string)
    requires i < |att| && v.employeeId == att[i].employeeId && v.date == att[i].date
    ensures FindRecord(att[i := v], id, date) == FindRecord(att, id, date)
  {
    var att' := att[i := v];
    assert forall k :: 0 <= k < |att| ==>
      (att'[k].employeeId == id && att'[k].date == date <==> att[k].employeeId == id && att[k].date == date);
  }

  /** A record appended for a new key is what the lookup finds for that key. */
  lemma FindRecordAppend(att: seq<Record>, x: Record)
    requires FindRecord(att, x.employeeId, x.date).None?
    ensures FindRecord(att + [x], x.employeeId, x.date) == Some(|att|)
  {
    assert (att + [x])[|att|] == x;
    assert forall k :: 0 <= k < |att| ==> (att + [x])[k] == att[k];
  }

  /** `delete_many({"employee_id": id})`: the records of every other employee, in order. */
  function WithoutEmployee(att: seq<Record>, id: string): (r: seq<Record>)
    ensures |r| <= |att|
    ensures forall x :: x in r <==> x in att && x.employeeId != id
    ensures multiset(r) <= multiset(att)
  {
    if att == [] then []
    else
      assert att == [att[0]] + att[1..];
      (if att[0].employeeId == id then [] else [att[0]]) + WithoutEmployee(att[1..], id)
  }

  /** Dropping records keeps keys unique. */
  lemma {:induction false} WithoutEmployeeUnique(att: seq<Record>, id: string)
    requires UniqueKeys(att)
    ensures UniqueKeys(WithoutEmployee(att, id))
  {
    if att != [] {
      var rest := att[1..];
      assert UniqueKeys(rest) by {
        forall i, j | 0 <= i < j < |rest|
          ensures !(rest[i].employeeId == rest[j].employeeId && rest[i].date == rest[j].date)
        {
          assert rest[i] == att[i + 1] && rest[j] == att[j + 1];
        }
      }
      WithoutEmployeeUnique(rest, id);
      var tail := WithoutEmployee(rest, id);
      if att[0].employeeId != id {
        assert forall x :: x in tail ==> !(x.employeeId == att[0].employeeId && x.date == att[0].date) by {
          forall x | x in tail ensures !(x.employeeId == att[0].employeeId && x.date == att[0].date) {
            assert x in rest;
            var k :| 0 <= k < |rest| && rest[k] == x;
            assert att[k + 1] == x;
          }
        }
        PrependUnique(att[0], tail);
      }
    }
  }

  /** A record whose key occurs nowhere in a duplicate-free sequence can be put in front of it. */
  lemma PrependUnique(x: Record, s: seq<Record>)
    requires UniqueKeys(s)
    requires forall y :: y in s ==> !(y.employeeId == x.employeeId && y.date == x.date)
    ensures UniqueKeys([x] + s)
  {
    var r := [x] + s;
    forall i, j | 0 <= i < j < |r| ensures !(r[i].employeeId == r[j].employeeId && r[i].date == r[j].date) {
      assert r[j] == s[j - 1];
      if i > 0 { assert r[i] == s[i - 1]; }
    }
  }

  // ---------------------------------------------------------------- listing attendance

  /** The filter of the attendance listings. `date` limits it to one day unless it is missing or
      empty; `employeeId`, when given, limits it to one employee. */
  predicate Matches(r: Record, employeeId: Option<string>, date: Option<string>) {
    && (employeeId.Some? ==> r.employeeId == employeeId.value)
    && (Given(date) ==> r.date == date.value)
  }

  /** `find(query)`: the matching records in storage order. */
  function Select(att: seq<Record>, employeeId: Option<string>, date: Option<string>): (r: seq<Record>)
    ensures |r| <= |att|
    ensures forall x :: x in r <==> x in att && Matches(x, employeeId, date)
    ensures multiset(r) <= multiset(att)
  {
    if att == [] then []
    else
      var last := att[|att| - 1];
      assert att == att[..|att| - 1] + [last];
      Select(att[..|att| - 1], employeeId, date) + (if Matches(last, employeeId, date) then [last] else [])
  }

  /** Later dates first. */
  ghost predicate NewestFirst(s: seq<Record>) {
    forall i, j :: 0 <= i < j < |s| ==> !LexLess(s[i].date, s[j].date)
  }

  /** Insert a record into a newest-first sequence, after the records with the same date. */
  function InsertByDate(x: Record, s: seq<Record>): (r: seq<Record>)
    ensures multiset(r) == multiset(s) + multiset{x}
  {
    if s == [] then [x]
    else if LexLess(s[0].date, x.date) then [x] + s
    else
      assert s == [s[0]] + s[1..];
      [s[0]] + InsertByDate(x, s[1..])
  }

  lemma {:induction false} InsertByDateNewestFirst(x: Record, s: seq<Record>)
    requires NewestFirst(s)
    ensures NewestFirst(InsertByDate(x, s))
  {
    if s == [] {
    } else if LexLess(s[0].date, x.date) {
      LexLessAsymmetric(s[0].date, x.date);
      forall k | 0 <= k < |s| ensures !LexLess(x.date, s[k].date) {
        if k > 0 {
          NotLessTransitive(x.date, s[0].date, s[k].date);
        }
      }
      PrependNewest(x, s);
    } else {
      var rest := s[1..];
      HeadNewest(s);
      InsertByDateNewestFirst(x, rest);
      var tail := InsertByDate(x, rest);
      forall k | 0 <= k < |tail| ensures !LexLess(s[0].date, tail[k].date) {
        assert tail[k] in multiset(tail);
        assert tail[k] == x || tail[k] in rest;
      }
      PrependNewest(s[0], tail);
    }
  }

  /** A record no older than any of a newest-first sequence can go in front of it. */
  lemma PrependNewest(x: Record, s: seq<Record>)
    requires NewestFirst(s)
    requires forall k :: 0 <= k < |s| ==> !LexLess(x.date, s[k].date)
    ensures NewestFirst([x] + s)
  {
    var r := [x] + s;
    forall i, j | 0 <= i < j < |r| ensures !LexLess(r[i].date, r[j].date) {
      assert r[j] == s[j - 1];
      if i > 0 {
        assert r[i] == s[i - 1];
      }
    }
  }

  /** The head of a newest-first sequence is no older than the rest, and the rest is newest first. */
  lemma HeadNewest(s: seq<Record>)
    requires NewestFirst(s) && s != []
    ensures NewestFirst(s[1..])
    ensures forall y :: y in s[1..] ==> !LexLess(s[0].date, y.date)
  {
    var rest := s[1..];
    forall i, j | 0 <= i < j < |rest| ensures !LexLess(rest[i].date, rest[j].date) {
      assert rest[i] == s[i + 1] && rest[j] == s[j + 1];
    }
    forall y | y in rest ensures !LexLess(s[0].date, y.date) {
      var k :| 0 <= k < |rest| && rest[k] == y;
      assert s[k + 1] == y;
    }
  }

  /** `.sort("date", -1)`: the records newest first. The database leaves the order of records
      with equal dates open; this model keeps them in storage order. */
  function SortByDateDesc(s: seq<Record>): (r: seq<Record>)
    ensures multiset(r) == multiset(s)
  {
    if s == [] then []
    else
      assert s == s[..|s| - 1] + [s[|s| - 1]];
      InsertByDate(s[|s| - 1], SortByDateDesc(s[..|s| - 1]))
  }

  lemma {:induction false} SortByDateDescNewestFirst(s: seq<Record>)
    ensures NewestFirst(SortByDateDesc(s))
  {
    if s != [] {
      SortByDateDescNewestFirst(s[..|s| - 1]);
      InsertByDateNewestFirst(s[|s| - 1], SortByDateDesc(s[..|s| - 1]));
    }
  }

  /** `find(query).sort("date", -1)`: exactly the matching records, newest first. */
  function Listing(att: seq<Record>, employeeId: Option<string>, date: Option<string>): (r: seq<Record>)
    ensures forall x :: x in r <==> x in att && Matches(x, employeeId, date)
    ensures multiset(r) == multiset(Select(att, employeeId, date))
    ensures NewestFirst(r)
  {
    var found := Select(att, employeeId, date);
    var sorted := SortByDateDesc(found);
    SortByDateDescNewestFirst(found);
    assert forall x :: x in sorted <==> x in found by {
      forall x ensures x in sorted <==> x in found {
        assert x in sorted <==> x in multiset(sorted);
        assert x in found <==> x in multiset(found);
      }
    }
    sorted
  }
}
