/**
  The daily statistics of the attendance dashboard: today's records, the
  status counts, the absent count, total worked time, the per-employee row
  and the recent-activity list. Durations are integer milliseconds.
*/
module AttendanceDashboard {
  import opened Store
  import opened Entities

  /** Number of records dated `today`. */
  function DatedCount(records: seq<AttendanceRecord>, today: string): nat {
    if records == [] then 0
    else (if records[0].date == today then 1 else 0) + DatedCount(records[1..], today)
  }

  /**
    `records.filter(record => record.date === today)`: the records dated
    today and nothing else (how often each is kept: `TodayRecordsMultiplicity`;
    the order: `TodayRecordsAppend`).
  */
  function TodayRecords(records: seq<AttendanceRecord>, today: string): (r: seq<AttendanceRecord>)
    ensures |r| == DatedCount(records, today) <= |records|
    ensures forall x :: x in r ==> x in records && x.date == today
    ensures forall x :: x in records && x.date == today ==> x in r
  {
    if records == [] then []
    else (if records[0].date == today then [records[0]] else []) + TodayRecords(records[1..], today)
  }

  /**
    Filtering keeps the list order: the records of today in a concatenation
    are those of the first part followed by those of the second.
  */
  lemma {:induction false} TodayRecordsAppend(a: seq<AttendanceRecord>, b: seq<AttendanceRecord>, today: string)
    ensures TodayRecords(a + b, today) == TodayRecords(a, today) + TodayRecords(b, today)
  {
    if a != [] {
      TodayRecordsAppend(a[1..], b, today);
      assert (a + b)[1..] == a[1..] + b;
    } else {
      assert a + b == b;
    }
  }

  /** Each record dated today is kept as often as it occurs; no other record is kept. */
  lemma {:induction false} TodayRecordsMultiplicity(records: seq<AttendanceRecord>, today: string)
    ensures forall x :: multiset(TodayRecords(records, today))[x] ==
                        if x.date == today then multiset(records)[x] else 0
  {
    if records != [] {
      TodayRecordsMultiplicity(records[1..], today);
      assert records == [records[0]] + records[1..];
    }
  }

  /** Number of records with the given status. */
  function CountStatus(records: seq<AttendanceRecord>, s: Status): (n: nat)
    ensures n <= |records|
  {
    if records == [] then 0
    else (if records[0].status == s then 1 else 0) + CountStatus(records[1..], s)
  }

  /** Every record has exactly one of the three statuses. */
  lemma {:induction false} StatusCountsPartition(records: seq<AttendanceRecord>)
    ensures CountStatus(records, CheckedIn) + CountStatus(records, CheckedOut)
            + CountStatus(records, Absent) == |records|
  {
    if records != [] {
      StatusCountsPartition(records[1..]);
    }
  }

  /** A status is absent from the records exactly when its count is zero. */
  lemma {:induction false} CountZeroIff(records: seq<AttendanceRecord>, s: Status)
    ensures CountStatus(records, s) == 0 <==> forall x :: x in records ==> x.status != s
  {
    if records != [] {
      CountZeroIff(records[1..], s);
      assert forall x :: x in records ==> x == records[0] || x in records[1..];
    }
  }

  /** "Currently In": today-records whose status is checked-in. */
  function CheckedInCount(records: seq<AttendanceRecord>, today: string): (n: nat)
    ensures n <= DatedCount(records, today)
    ensures n == 0 <==> forall x :: x in records && x.date == today ==> x.status != CheckedIn
  {
    CountZeroIff(TodayRecords(records, today), CheckedIn);
    CountStatus(TodayRecords(records, today), CheckedIn)
  }

  /** Today-records whose status is checked-out. */
  function CheckedOutCount(records: seq<AttendanceRecord>, today: string): (n: nat)
    ensures n <= DatedCount(records, today)
    ensures n == 0 <==> forall x :: x in records && x.date == today ==> x.status != CheckedOut
  {
    CountZeroIff(TodayRecords(records, today), CheckedOut);
    CountStatus(TodayRecords(records, today), CheckedOut)
  }

  /** "Present Today": `checkedInCount + checkedOutCount`, never more than today's records. */
  function PresentCount(records: seq<AttendanceRecord>, today: string): (n: nat)
    ensures n <= |TodayRecords(records, today)|
    ensures n == |TodayRecords(records, today)| <==>
              forall x :: x in records && x.date == today ==> x.status != Absent
  {
    var t := TodayRecords(records, today);
    StatusCountsPartition(t);
    CountZeroIff(t, Absent);
    CheckedInCount(records, today) + CheckedOutCount(records, today)
  }

  /** "Absent": roster size minus the number of records dated today, not clamped at zero. */
  function AbsentCount(records: seq<AttendanceRecord>, employees: seq<Employee>, today: string): (n: int)
    ensures n == |employees| - DatedCount(records, today)
    ensures n < 0 <==> DatedCount(records, today) > |employees|
  {
    |employees| - |TodayRecords(records, today)|
  }

  /**
    Absent plus present equals the roster size exactly when no today-record
    has status 'absent'; how many records an employee has does not matter.
  */
  lemma AbsentPlusPresent(records: seq<AttendanceRecord>, employees: seq<Employee>, today: string)
    ensures AbsentCount(records, employees, today) + PresentCount(records, today) == |employees|
            <==> forall x :: x in records && x.date == today ==> x.status != Absent
  {
  }

  /** With more of today's records than employees, the absent count is negative. */
  lemma AbsentCanBeNegative()
    ensures var r := AttendanceRecord("r1", "e1", Some(0), None, "2024-01-01", CheckedIn, true);
      AbsentCount([r], [], "2024-01-01") == -1
  {
    var r := AttendanceRecord("r1", "e1", Some(0), None, "2024-01-01", CheckedIn, true);
    assert TodayRecords([r], "2024-01-01") == [r];
  }

  /** `calculateWorkHours` in milliseconds: `None` is the '--' placeholder. */
  function WorkDuration(checkIn: Option<int>, checkOut: Option<int>): (d: Option<int>)
    ensures d.None? <==> checkIn.None? || checkOut.None?
    ensures d.Some? ==> checkIn.value + d.value == checkOut.value
  {
    if checkIn.None? || checkOut.None? then None else Some(checkOut.value - checkIn.value)
  }

  /** What one record adds to the day's total: its duration when both timestamps are present. */
  function Worked(r: AttendanceRecord): int {
    match WorkDuration(r.checkIn, r.checkOut)
    case Some(d) => d
    case None => 0
  }

  /** Left-to-right sum of `f` over the records (the `reduce` of the source). */
  function SumOf(records: seq<AttendanceRecord>, f: AttendanceRecord -> int): int {
    if records == [] then 0 else f(records[0]) + SumOf(records[1..], f)
  }

  /** Total worked time of a list of records. */
  function TotalWorked(records: seq<AttendanceRecord>): int {
    SumOf(records, Worked)
  }

  /** The term a record adds to "Total Hours": its worked time when it is dated today. */
  function WorkedOn(today: string, r: AttendanceRecord): int {
    if r.date == today then Worked(r) else 0
  }

  /**
    "Total Hours" in milliseconds: the worked time of today's records, which
    is the sum over all records of the worked time of those dated today.
  */
  function TotalToday(records: seq<AttendanceRecord>, today: string): (t: int)
    ensures t == SumOf(records, r => WorkedOn(today, r))
  {
    FilteredSum(records, today);
    TotalWorked(TodayRecords(records, today))
  }

  /** Removing one element from a sum takes exactly its term out. */
  lemma {:induction false} SumOfRemove(records: seq<AttendanceRecord>, f: AttendanceRecord -> int, k: nat)
    requires k < |records|
    ensures SumOf(records, f) == f(records[k]) + SumOf(records[..k] + records[k + 1..], f)
  {
    if k > 0 {
      SumOfRemove(records[1..], f, k - 1);
      assert records[1..][..k - 1] + records[1..][k..] == (records[..k] + records[k + 1..])[1..];
    } else {
      assert records[..k] + records[k + 1..] == records[1..];
    }
  }

  /** Taking one element out of a sequence takes it out of its multiset. */
  lemma MultisetRemove(b: seq<AttendanceRecord>, k: nat)
    requires k < |b|
    ensures multiset(b[..k] + b[k + 1..]) == multiset(b) - multiset{b[k]}
  {
    assert b == b[..k] + [b[k]] + b[k + 1..];
  }

  /** A sum does not depend on the order of the records. */
  lemma {:induction false} SumOfPermutation(a: seq<AttendanceRecord>, b: seq<AttendanceRecord>, f: AttendanceRecord -> int)
    requires multiset(a) == multiset(b)
    ensures SumOf(a, f) == SumOf(b, f)
    decreases |a|
  {
    if a == [] {
      assert |b| == |multiset(b)| == 0;
    } else {
      assert a[0] in multiset(b);
      var k :| 0 <= k < |b| && b[k] == a[0];
      var rest := b[..k] + b[k + 1..];
      assert multiset(a[1..]) == multiset(rest) by {
        MultisetRemove(b, k);
        assert a == [a[0]] + a[1..];
      }
      SumOfPermutation(a[1..], rest, f);
      SumOfRemove(b, f, k);
    }
  }

  /** Filtering by date and summing equals summing only the terms dated today. */
  lemma {:induction false} FilteredSum(records: seq<AttendanceRecord>, today: string)
    ensures TotalWorked(TodayRecords(records, today)) == SumOf(records, r => WorkedOn(today, r))
  {
    if records != [] {
      FilteredSum(records[1..], today);
      var t := TodayRecords(records[1..], today);
      if records[0].date == today {
        assert TodayRecords(records, today) == [records[0]] + t;
        assert ([records[0]] + t)[1..] == t;
      } else {
        assert TodayRecords(records, today) == t;
      }
    }
  }

  /** "Total Hours" does not depend on the order of the records. */
  lemma TotalTodayOrderIndependent(a: seq<AttendanceRecord>, b: seq<AttendanceRecord>, today: string)
    requires multiset(a) == multiset(b)
    ensures TotalToday(a, today) == TotalToday(b, today)
  {
    SumOfPermutation(a, b, r => WorkedOn(today, r));
  }

  /** With no record of the list having both timestamps, the total is zero. */
  lemma {:induction false} TotalWorkedZero(records: seq<AttendanceRecord>)
    requires forall x :: x in records ==> x.checkIn.None? || x.checkOut.None?
    ensures TotalWorked(records) == 0
  {
    if records != [] {
      TotalWorkedZero(records[1..]);
    }
  }

  /** When every completed record ends no earlier than it starts, the total is non-negative. */
  lemma {:induction false} TotalWorkedNonNegative(records: seq<AttendanceRecord>)
    requires forall x :: x in records && x.checkIn.Some? && x.checkOut.Some? ==> x.checkIn.value <= x.checkOut.value
    ensures TotalWorked(records) >= 0
  {
    if records != [] {
      TotalWorkedNonNegative(records[1..]);
    }
  }

  /** Index of the first record for the employee, as `Array.prototype.findIndex`. */
  function FirstIndexFor(records: seq<AttendanceRecord>, employeeId: string): (k: Option<nat>)
    ensures k.None? <==> forall i :: 0 <= i < |records| ==> records[i].employeeId != employeeId
    ensures k.Some? ==> k.value < |records| && records[k.value].employeeId == employeeId
    ensures k.Some? ==> forall i :: 0 <= i < k.value ==> records[i].employeeId != employeeId
  {
    if records == [] then None
    else if records[0].employeeId == employeeId then Some(0)
    else match FirstIndexFor(records[1..], employeeId)
      case None => None
      case Some(j) => Some(j + 1)
  }

  /**
    `todayRecords.find(r => r.employee_id === employee.id)`: nothing when no
    record of today is the employee's, otherwise the first one that is.
  */
  function RecordFor(records: seq<AttendanceRecord>, today: string, employeeId: string): (r: Option<AttendanceRecord>)
    ensures r.None? <==> forall x :: x in records && x.date == today ==> x.employeeId != employeeId
    ensures r.Some? ==> r.value in records && r.value.date == today && r.value.employeeId == employeeId
  {
    var t := TodayRecords(records, today);
    match FirstIndexFor(t, employeeId)
    case None =>
      assert forall x :: x in t ==> x.employeeId != employeeId;
      None
    case Some(k) => Some(t[k])
  }

  /** The record found is the employee's first among today's records, in list order. */
  lemma RecordForIsFirstMatch(records: seq<AttendanceRecord>, today: string, employeeId: string, i: nat)
    requires var t := TodayRecords(records, today);
      && i < |t| && t[i].employeeId == employeeId
      && forall j :: 0 <= j < i ==> t[j].employeeId != employeeId
    ensures RecordFor(records, today, employeeId) == Some(TodayRecords(records, today)[i])
  {
    var t := TodayRecords(records, today);
    assert FirstIndexFor(t, employeeId) == Some(i);
  }

  /** The badge shown next to an employee. */
  datatype Badge = AbsentBadge | PresentBadge | CompletedBadge

  /** Absent without a record, Present for 'checked-in', Completed for any other status. */
  function BadgeOf(record: Option<AttendanceRecord>): (b: Badge)
    ensures b == AbsentBadge <==> record.None?
    ensures b == PresentBadge <==> record.Some? && record.value.status == CheckedIn
    ensures b == CompletedBadge <==> record.Some? && record.value.status != CheckedIn
  {
    if record.None? then AbsentBadge
    else if record.value.status == CheckedIn then PresentBadge
    else CompletedBadge
  }

  /**
    The employee's badge: Absent exactly when none of today's records is
    theirs, Present exactly when their first one is 'checked-in'.
  */
  lemma BadgeForEmployee(records: seq<AttendanceRecord>, today: string, employeeId: string)
    ensures var b := BadgeOf(RecordFor(records, today, employeeId));
      && (b == AbsentBadge <==> forall x :: x in records && x.date == today ==> x.employeeId != employeeId)
      && (b == PresentBadge <==> RecordFor(records, today, employeeId).Some?
                                 && RecordFor(records, today, employeeId).value.status == CheckedIn)
      && (b == CompletedBadge <==> RecordFor(records, today, employeeId).Some?
                                   && RecordFor(records, today, employeeId).value.status != CheckedIn)
  {
  }

  /** A roster row: check-in and check-out times, worked time ('--' is `None`) and badge. */
  datatype RosterRow = RosterRow(
    name: string,
    department: string,
    checkIn: Option<int>,
    checkOut: Option<int>,
    worked: Option<int>,
    badge: Badge)

  /** The row shown for one employee of the roster. */
  function RowFor(records: seq<AttendanceRecord>, today: string, e: Employee): (row: RosterRow)
    ensures row.badge == BadgeOf(RecordFor(records, today, e.id))
    ensures row.worked.None? <==> row.checkIn.None? || row.checkOut.None?
    ensures RecordFor(records, today, e.id).None? ==> row.checkIn.None? && row.checkOut.None?
    ensures RecordFor(records, today, e.id).Some? ==>
      && row.checkIn == RecordFor(records, today, e.id).value.checkIn
      && row.checkOut == RecordFor(records, today, e.id).value.checkOut
    ensures row.worked == WorkDuration(row.checkIn, row.checkOut)
    ensures row.name == e.name && row.department == e.department
  {
    var rec := RecordFor(records, today, e.id);
    var checkIn := if rec.Some? then rec.value.checkIn else None;
    var checkOut := if rec.Some? then rec.value.checkOut else None;
    RosterRow(e.name, e.department, checkIn, checkOut, WorkDuration(checkIn, checkOut), BadgeOf(rec))
  }

  /**
    A three-employee day: Ann checked in at 9:00 and is still in, Ben has no
    record, Cid worked 9:00 to 17:00. Two are present, one absent, one
    currently in, eight hours in total, and Ben's badge is Absent.
  */
  lemma ScenarioThreeEmployees()
    ensures
      var day := "2024-03-04";
      var nine := 9 * 3600000;
      var five := 17 * 3600000;
      var a := Employee("A", "uA", "EMP_A", "Ann", "a@x", "General", "employee", Some("ABC123"));
      var b := Employee("B", "uB", "EMP_B", "Ben", "b@x", "General", "employee", Some("ABC123"));
      var c := Employee("C", "uC", "EMP_C", "Cid", "c@x", "General", "employee", Some("ABC123"));
      var ra := AttendanceRecord("1", "A", Some(nine), None, day, CheckedIn, true);
      var rc := AttendanceRecord("2", "C", Some(nine), Some(five), day, CheckedOut, true);
      && PresentCount([ra, rc], day) == 2
      && AbsentCount([ra, rc], [a, b, c], day) == 1
      && CheckedInCount([ra, rc], day) == 1
      && TotalToday([ra, rc], day) == 8 * 3600000
      && RowFor([ra, rc], day, b).badge == AbsentBadge
  {
    var day := "2024-03-04";
    var nine := 9 * 3600000;
    var five := 17 * 3600000;
    var ra := AttendanceRecord("1", "A", Some(nine), None, day, CheckedIn, true);
    var rc := AttendanceRecord("2", "C", Some(nine), Some(five), day, CheckedOut, true);
    assert TodayRecords([ra, rc], day) == [ra, rc];
  }

  /** `a.check_out || a.check_in`, or the epoch when neither is set. */
  function EffectiveTime(r: AttendanceRecord): (t: int)
    ensures r.checkOut.Some? ==> t == r.checkOut.value
    ensures r.checkOut.None? && r.checkIn.Some? ==> t == r.checkIn.value
    ensures r.checkOut.None? && r.checkIn.None? ==> t == 0
  {
    if r.checkOut.Some? then r.checkOut.value
    else if r.checkIn.Some? then r.checkIn.value
    else 0
  }

  /** Ordered by non-increasing effective time: most recent first. */
  predicate MostRecentFirst(s: seq<AttendanceRecord>) {
    forall i, j :: 0 <= i < j < |s| ==> EffectiveTime(s[i]) >= EffectiveTime(s[j])
  }

  /**
    While the record at `j` is being moved forward: the first `hi + 1`
    records are in order apart from position `j`, and the record at `j` is
    strictly more recent than every record after it.
  */
  predicate InOrderExcept(s: seq<AttendanceRecord>, hi: nat, j: nat)
    requires j <= hi < |s|
  {
    && (forall k, l :: 0 <= k < l <= hi && k != j && l != j ==> EffectiveTime(s[k]) >= EffectiveTime(s[l]))
    && (forall l :: j < l <= hi ==> EffectiveTime(s[j]) > EffectiveTime(s[l]))
  }

  /** Exchanging the record at `j` with a less recent predecessor keeps the ordering facts. */
  lemma MoveForward(s: seq<AttendanceRecord>, hi: nat, j: nat)
    requires 0 < j <= hi < |s| && InOrderExcept(s, hi, j)
    requires EffectiveTime(s[j - 1]) < EffectiveTime(s[j])
    ensures InOrderExcept(s[j - 1 := s[j]][j := s[j - 1]], hi, j - 1)
  {
  }

  /** Once its predecessor is at least as recent, the record at `j` is in place. */
  lemma SettledInOrder(s: seq<AttendanceRecord>, hi: nat, j: nat)
    requires j <= hi < |s| && InOrderExcept(s, hi, j)
    requires j == 0 || EffectiveTime(s[j - 1]) >= EffectiveTime(s[j])
    ensures MostRecentFirst(s[..hi + 1])
  {
  }

  /** Exchanges two adjacent elements of the array. */
  method SwapAdjacent(a: array<AttendanceRecord>, j: nat)
    requires 0 < j < a.Length
    modifies a
    ensures a[..] == old(a[..])[j - 1 := old(a[j])][j := old(a[j - 1])]
    ensures multiset(a[..]) == multiset(old(a[..]))
  {
    a[j - 1], a[j] := a[j], a[j - 1];
  }

  /**
    `records.sort((a, b) => time(b) - time(a))`: sorts the caller's array in
    place, most recent first, keeping its elements. Adjacent exchanges only
    move strictly more recent records forward, so ties keep their order.
  */
  method SortByRecency(a: array<AttendanceRecord>)
    modifies a
    ensures MostRecentFirst(a[..])
    ensures multiset(a[..]) == multiset(old(a[..]))
  {
    if a.Length == 0 {
      return;
    }
    var i := 1;
    while i < a.Length
      invariant 1 <= i <= a.Length
      invariant MostRecentFirst(a[..i])
      invariant multiset(a[..]) == multiset(old(a[..]))
    {
      var j := i;
      while j > 0 && EffectiveTime(a[j - 1]) < EffectiveTime(a[j])
        invariant 0 <= j <= i
        invariant InOrderExcept(a[..], i, j)
        invariant multiset(a[..]) == multiset(old(a[..]))
      {
        MoveForward(a[..], i, j);
        SwapAdjacent(a, j);
        j := j - 1;
      }
      SettledInOrder(a[..], i, j);
      assert a[..][..i + 1] == a[..i + 1];
      i := i + 1;
    }
    assert a[..i] == a[..];
  }

  /** One line of "Recent Activity". */
  datatype ActivityEntry = ActivityEntry(
    recordId: string,
    name: string,
    checkedOut: bool,
    at: Option<int>,
    date: string)

  /** `employees.find(e => e.id === id)?.name || 'Unknown Employee'`. */
  function DisplayName(employees: seq<Employee>, employeeId: string): (name: string)
    ensures (forall e :: e in employees ==> e.id != employeeId) ==> name == "Unknown Employee"
    ensures name != ""
  {
    if employees == [] then "Unknown Employee"
    else if employees[0].id == employeeId then
      (if employees[0].name != "" then employees[0].name else "Unknown Employee")
    else DisplayName(employees[1..], employeeId)
  }

  /**
    A known employee is shown by the name of the first matching roster entry,
    or as "Unknown Employee" when that entry's name is empty: later entries
    with the same id are never consulted.
  */
  lemma {:induction false} DisplayNameOfFirstMatch(employees: seq<Employee>, employeeId: string, k: nat)
    requires k < |employees| && employees[k].id == employeeId
    requires forall i :: 0 <= i < k ==> employees[i].id != employeeId
    ensures DisplayName(employees, employeeId) ==
            if employees[k].name != "" then employees[k].name else "Unknown Employee"
  {
    if k > 0 {
      DisplayNameOfFirstMatch(employees[1..], employeeId, k - 1);
    }
  }

  /** The activity line for one record. */
  function EntryFor(r: AttendanceRecord, employees: seq<Employee>): (e: ActivityEntry)
    ensures e.recordId == r.id && e.date == r.date
    ensures e.name == DisplayName(employees, r.employeeId)
    ensures e.checkedOut <==> r.checkOut.Some?
    ensures e.at == (if r.checkOut.Some? then r.checkOut else r.checkIn)
    ensures e.at.Some? ==> e.at.value == EffectiveTime(r)
  {
    ActivityEntry(r.id, DisplayName(employees, r.employeeId), r.checkOut.Some?,
                  if r.checkOut.Some? then r.checkOut else r.checkIn, r.date)
  }

  /** How many entries "Recent Activity" shows. */
  const ActivityLimit: nat := 5

  /**
    "Recent Activity": sort the records in place, most recent first, then
    show the first five. The entries are a prefix of a permutation of the
    records, in non-increasing effective time.
  */
  method RecentActivity(records: array<AttendanceRecord>, employees: seq<Employee>) returns (entries: seq<ActivityEntry>)
    modifies records
    ensures multiset(records[..]) == multiset(old(records[..]))
    ensures MostRecentFirst(records[..])
    ensures |entries| == if records.Length < ActivityLimit then records.Length else ActivityLimit
    ensures forall i :: 0 <= i < |entries| ==> entries[i] == EntryFor(records[i], employees)
  {
    SortByRecency(records);
    var shown := if records.Length < ActivityLimit then records.Length else ActivityLimit;
    entries := seq(shown, i requires 0 <= i < shown reads records => EntryFor(records[i], employees));
  }
}
