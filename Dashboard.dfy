/** The dashboard summary: one pass over the day's records into five counters. */
module Dashboard {
  import opened Wrappers
  import opened Text
  import opened AttendanceRules
  import Queries

  /** The counter a status label is added to, if any. */
  datatype Bucket = PresentBucket | AbsentBucket | LateBucket | EarlyExitBucket | IncompleteBucket | NoBucket

  /** First match by substring, checked in the order Present, Absent, Late, Early Exit, Incomplete. */
  function Classify(status: string): Bucket {
    if Contains(status, "Present") then PresentBucket
    else if Contains(status, "Absent") then AbsentBucket
    else if Contains(status, "Late") then LateBucket
    else if Contains(status, "Early Exit") then EarlyExitBucket
    else if Contains(status, "Incomplete") then IncompleteBucket
    else NoBucket
  }

  /** The bucket of each status, stated directly on the enumeration. */
  function BucketOf(s: Status): Bucket {
    match s
    case Present => PresentBucket
    case Absent => AbsentBucket
    case Late => LateBucket
    case LateAndEarlyExit => LateBucket
    case EarlyExit => EarlyExitBucket
    case Incomplete => IncompleteBucket
  }

  /** Substring classification of the six labels agrees with the direct mapping; in particular
      "Late & Early Exit" is counted as late, because "Late" is checked first. */
  lemma ClassifyLabel(s: Status)
    ensures Classify(Label(s)) == BucketOf(s)
  {
    match s
    case Present => ClassifyPresent();
    case Absent => ClassifyAbsent();
    case Late => ClassifyLate();
    case LateAndEarlyExit => ClassifyLateAndEarlyExit();
    case EarlyExit => ClassifyEarlyExit();
    case Incomplete => ClassifyIncomplete();
  }

  lemma ClassifyPresent()
    ensures Classify("Present") == PresentBucket
  {
    ContainsPrefix("Present", "Present");
  }

  lemma ClassifyAbsent()
    ensures Classify("Absent") == AbsentBucket
  {
    ContainsPrefix("Absent", "Absent");
    ContainsFirstChar("Absent", "Present");
  }

  lemma ClassifyLate()
    ensures Classify("Late") == LateBucket
  {
    ContainsPrefix("Late", "Late");
    ContainsFirstChar("Late", "Present");
    ContainsFirstChar("Late", "Absent");
  }

  lemma ClassifyLateAndEarlyExit()
    ensures Classify("Late & Early Exit") == LateBucket
  {
    ContainsPrefix("Late & Early Exit", "Late");
    ContainsFirstChar("Late & Early Exit", "Present");
    ContainsFirstChar("Late & Early Exit", "Absent");
  }

  lemma ClassifyEarlyExit()
    ensures Classify("Early Exit") == EarlyExitBucket
  {
    ContainsPrefix("Early Exit", "Early Exit");
    ContainsFirstChar("Early Exit", "Present");
    ContainsFirstChar("Early Exit", "Absent");
    ContainsFirstChar("Early Exit", "Late");
  }

  lemma ClassifyIncomplete()
    ensures Classify("Incomplete") == IncompleteBucket
  {
    ContainsPrefix("Incomplete", "Incomplete");
    ContainsFirstChar("Incomplete", "Present");
    ContainsFirstChar("Incomplete", "Absent");
    ContainsFirstChar("Incomplete", "Late");
    ContainsFirstChar("Incomplete", "Early Exit");
  }

  /** A record without a status reads as "", which lands in no bucket. */
  lemma ClassifyMissing()
    ensures Classify("") == NoBucket
  {
  }

  datatype Counts = Counts(present: nat, absent: nat, late: nat, earlyExit: nat, incomplete: nat) {
    function Total(): nat {
      present + absent + late + earlyExit + incomplete
    }
  }

  const NoCounts := Counts(0, 0, 0, 0, 0)

  /** Add one to the counter of a bucket. */
  function Bump(c: Counts, b: Bucket): Counts {
    match b
    case PresentBucket => c.(present := c.present + 1)
    case AbsentBucket => c.(absent := c.absent + 1)
    case LateBucket => c.(late := c.late + 1)
    case EarlyExitBucket => c.(earlyExit := c.earlyExit + 1)
    case IncompleteBucket => c.(incomplete := c.incomplete + 1)
    case NoBucket => c
  }

  /** A bump adds one to the total, unless the status fits no bucket. */
  lemma BumpTotal(c: Counts, b: Bucket)
    ensures Bump(c, b).Total() == c.Total() + (if b == NoBucket then 0 else 1)
  {
  }

  /** The counters after the pass over a day's records, each counted in the bucket of its
      status. */
  function Tally(records: seq<Record>): Counts {
    if records == [] then NoCounts
    else Bump(Tally(records[..|records| - 1]), BucketOf(records[|records| - 1].status))
  }

  /** Every record adds to exactly one counter. */
  lemma {:induction false} TallyTotal(records: seq<Record>)
    ensures Tally(records).Total() == |records|
  {
    if records != [] {
      TallyTotal(records[..|records| - 1]);
      TallyLast(records);
    }
  }

  lemma TallyLast(records: seq<Record>)
    requires records != []
    ensures Tally(records).Total() == Tally(records[..|records| - 1]).Total() + 1
  {
    BumpTotal(Tally(records[..|records| - 1]), BucketOf(records[|records| - 1].status));
  }

  lemma TallyAppend(records: seq<Record>, x: Record)
    ensures Tally(records + [x]) == Bump(Tally(records), BucketOf(x.status))
  {
    assert (records + [x])[..|records|] == records;
  }

  /** `find({"date": date})`: the records of one day, in storage order. */
  function OnDate(records: seq<Record>, date: string): (day: seq<Record>)
    ensures |day| <= |records|
  {
    if records == [] then []
    else
      var last := records[|records| - 1];
      OnDate(records[..|records| - 1], date) + (if last.date == date then [last] else [])
  }

  /** Only records of the requested date are collected, and all of them. */
  lemma {:induction false} OnDateMembers(records: seq<Record>, date: string)
    ensures forall r :: r in OnDate(records, date) <==> r in records && r.date == date
  {
    if records != [] {
      var prefix := records[..|records| - 1];
      OnDateMembers(prefix, date);
      assert records == prefix + [records[|records| - 1]];
    }
  }

  /** For a non-empty date, the day's records are what the listing query `find({"date": date})`
      selects. */
  lemma {:induction false} OnDateIsSelect(records: seq<Record>, date: string)
    requires date != []
    ensures OnDate(records, date) == Queries.Select(records, None, Some(date))
    decreases |records|
  {
    if records != [] {
      OnDateIsSelect(records[..|records| - 1], date);
    }
  }

  lemma OnDateAppend(records: seq<Record>, x: Record, date: string)
    ensures OnDate(records + [x], date) == OnDate(records, date) + (if x.date == date then [x] else [])
  {
    assert (records + [x])[..|records|] == records;
  }

  /** The dashboard summary. */
  datatype Summary = Summary(date: string, totalEmployees: nat, counts: Counts, unmarked: nat)

  /** `max(0, total - marked)`. */
  function Unmarked(total: nat, marked: nat): (u: nat)
    ensures u + marked >= total
    ensures u == 0 || u + marked == total
  {
    if total > marked then total - marked else 0
  }

  /** One step of the counting loop: the record's status label goes to the first counter whose
      keyword it contains, which is the bucket of its status. */
  method CountRecord(c: Counts, rec: Record) returns (c': Counts)
    ensures c' == Bump(c, BucketOf(rec.status))
  {
    var status := Label(rec.status);
    ClassifyLabel(rec.status);
    var present, absent, late, earlyExit, incomplete := c.present, c.absent, c.late, c.earlyExit, c.incomplete;
    if Contains(status, "Present") {
      present := present + 1;
    } else if Contains(status, "Absent") {
      absent := absent + 1;
    } else if Contains(status, "Late") {
      late := late + 1;
    } else if Contains(status, "Early Exit") {
      earlyExit := earlyExit + 1;
    } else if Contains(status, "Incomplete") {
      incomplete := incomplete + 1;
    }
    c' := Counts(present, absent, late, earlyExit, incomplete);
  }

  /** The summary for `date`, or for `today` when no date or an empty one is given: collect the
      day's records in one loop, then count them in a second. */
  method Summarize(records: seq<Record>, date: Option<string>, today: string, totalEmployees: nat)
    returns (s: Summary)
    ensures s.date == (if Given(date) then date.value else today)
    ensures s.totalEmployees == totalEmployees
    ensures s.counts == Tally(OnDate(records, s.date))
    ensures s.unmarked == Unmarked(totalEmployees, |OnDate(records, s.date)|)
  {
    var day := if Given(date) then date.value else today;
    var dayRecords: seq<Record> := [];
    var i := 0;
    while i < |records|
      invariant 0 <= i <= |records|
      invariant dayRecords == OnDate(records[..i], day)
    {
      OnDateAppend(records[..i], records[i], day);
      assert records[..i + 1] == records[..i] + [records[i]];
      if records[i].date == day {
        dayRecords := dayRecords + [records[i]];
      }
      i := i + 1;
    }
    assert records[..|records|] == records;
    var counts := NoCounts;
    var j := 0;
    while j < |dayRecords|
      invariant 0 <= j <= |dayRecords|
      invariant counts == Tally(dayRecords[..j])
    {
      TallyAppend(dayRecords[..j], dayRecords[j]);
      assert dayRecords[..j + 1] == dayRecords[..j] + [dayRecords[j]];
      counts := CountRecord(counts, dayRecords[j]);
      j := j + 1;
    }
    assert dayRecords[..|dayRecords|] == dayRecords;
    s := Summary(day, totalEmployees, counts, Unmarked(totalEmployees, |dayRecords|));
  }

  /** When no more records exist for the day than employees, the five counters and the
      unmarked count add up to the number of employees. */
  lemma SummaryAddsUp(records: seq<Record>, date: string, totalEmployees: nat)
    requires |OnDate(records, date)| <= totalEmployees
    ensures Tally(OnDate(records, date)).Total() + Unmarked(totalEmployees, |OnDate(records, date)|)
      == totalEmployees
  {
    TallyTotal(OnDate(records, date));
  }
}
