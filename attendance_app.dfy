/**
  The employee-facing application: resolving who the signed-in user is
  (onboarding needed, admin or employee), and the check-in/check-out
  lifecycle with its local copy of the user's attendance records.
*/
module AttendanceApp {
  import opened Store
  import opened Entities
  import Text
  import AttendanceDashboard

  /** What the fingerprint scanner triggers next. */
  datatype Action = CheckInAction | CheckOutAction

  /**
    The action offered for today's record: check-out while checked in,
    check-in otherwise (no record, checked out, or 'absent').
  */
  function NextAction(todayRecord: Option<AttendanceRecord>): (a: Action)
    ensures a == CheckOutAction <==> todayRecord.Some? && todayRecord.value.status == CheckedIn
  {
    if todayRecord.None? then CheckInAction
    else if todayRecord.value.status == CheckedIn then CheckOutAction
    else CheckInAction
  }

  /** The scanner is disabled exactly when today's record is checked out. */
  function ScannerDisabled(todayRecord: Option<AttendanceRecord>): (d: bool)
    ensures d <==> todayRecord.Some? && todayRecord.value.status == CheckedOut
    ensures d ==> NextAction(todayRecord) == CheckInAction
  {
    todayRecord.Some? && todayRecord.value.status == CheckedOut
  }

  /**
    While the scanner is enabled, a check-in is offered exactly when there is
    no record for today or its status is 'absent'; a checked-out day offers
    nothing.
  */
  lemma EnabledScannerAction(todayRecord: Option<AttendanceRecord>)
    requires !ScannerDisabled(todayRecord)
    ensures NextAction(todayRecord) == CheckInAction
            <==> todayRecord.None? || todayRecord.value.status == Absent
  {
  }

  /** The date key `new Date().toISOString().split('T')[0]`: the ISO timestamp up to its first 'T'. */
  function DateKey(iso: string): (d: string)
    ensures d == Text.Split(iso, 'T')[0]
    ensures 'T' !in d && |d| <= |iso| && d == iso[..|d|]
    ensures |d| < |iso| ==> iso[|d|] == 'T'
  {
    Text.BeforeIsFirstPart(iso, 'T');
    Text.Before(iso, 'T')
  }

  /** The row inserted on check-in. */
  datatype NewAttendance = NewAttendance(
    employeeId: string,
    checkIn: int,
    date: string,
    status: Status,
    fingerprintVerified: bool)

  /** The store calls the application issues. */
  datatype Call =
    | SelectRole(userId: string)
    | SelectEmployee(userId: string, orgCode: Option<string>)
    | SelectTodayRecord(employeeId: string, date: string)
    | SelectAllRecords(employeeId: string)
    | InsertAttendance(row: NewAttendance)
    | UpdateAttendance(id: string, checkOut: int, status: Status)

  /** The check-in row: checked in now, today, fingerprint verified. */
  function CheckInRow(e: Employee, now: int, today: string): (row: NewAttendance)
    ensures row.employeeId == e.id && row.checkIn == now && row.date == today
    ensures row.status == CheckedIn && row.fingerprintVerified
  {
    NewAttendance(e.id, now, today, CheckedIn, true)
  }

  /** The record the store holds for an inserted check-in row, under the id it assigned. */
  function Stored(row: NewAttendance, id: string): AttendanceRecord {
    AttendanceRecord(id, row.employeeId, Some(row.checkIn), None, row.date, row.status, row.fingerprintVerified)
  }

  /** The check-out update: sets `check_out` and `status` and nothing else. */
  function ApplyCheckOut(r: AttendanceRecord, now: int): (out: AttendanceRecord)
    ensures out.checkOut == Some(now) && out.status == CheckedOut
    ensures out.(checkOut := r.checkOut, status := r.status) == r
    ensures ScannerDisabled(Some(out))
  {
    r.(checkOut := Some(now), status := CheckedOut)
  }

  /**
    One day's lifecycle: after a check-in the scanner offers check-out; after
    the check-out the scanner is disabled, every other field is as inserted,
    and the worked time is the difference of the two instants.
  */
  lemma CheckInThenCheckOut(e: Employee, checkIn: int, checkOut: int, today: string, id: string)
    ensures var r1 := Stored(CheckInRow(e, checkIn, today), id);
      && NextAction(Some(r1)) == CheckOutAction && !ScannerDisabled(Some(r1))
      && r1.employeeId == e.id && r1.date == today && r1.fingerprintVerified
      && var r2 := ApplyCheckOut(r1, checkOut);
      && ScannerDisabled(Some(r2))
      && r2.id == id && r2.employeeId == e.id && r2.date == today && r2.checkIn == Some(checkIn)
      && r2.fingerprintVerified
      && AttendanceDashboard.WorkDuration(r2.checkIn, r2.checkOut) == Some(checkOut - checkIn)
  {
  }

  /** `prev.map(record => record.id === data.id ? data : record)`. */
  function ReplaceById(records: seq<AttendanceRecord>, r: AttendanceRecord): (out: seq<AttendanceRecord>)
    ensures |out| == |records|
    ensures forall i :: 0 <= i < |records| && records[i].id != r.id ==> out[i] == records[i]
    ensures forall i :: 0 <= i < |records| && records[i].id == r.id ==> out[i] == r
  {
    if records == [] then []
    else [if records[0].id == r.id then r else records[0]] + ReplaceById(records[1..], r)
  }

  /** Replacing by id keeps every position's id, and replacing twice is replacing once. */
  lemma ReplaceByIdKeepsIds(records: seq<AttendanceRecord>, r: AttendanceRecord)
    ensures forall i :: 0 <= i < |records| ==> ReplaceById(records, r)[i].id == records[i].id
    ensures ReplaceById(ReplaceById(records, r), r) == ReplaceById(records, r)
    ensures (forall x :: x in records ==> x.id != r.id) ==> ReplaceById(records, r) == records
  {
  }

  /** Where the application stands after resolving the user. */
  datatype Resolution = Raised | NeedsOnboarding | Resolved

  /** `needsSetup` after a resolution, as written: only ever set, never cleared. */
  function NeedsSetupAsWritten(before: bool, res: Resolution): (after: bool)
    ensures after <==> res == NeedsOnboarding || before
    ensures before ==> after
  {
    if res == NeedsOnboarding then true else before
  }

  /**
    The evidently intended `needsSetup` rule: set when onboarding is needed,
    cleared once the user resolves. The component as written does not clear
    it (`NeedsSetupAsWritten`, which `App` follows).
  */
  function NeedsSetupAfter(before: bool, res: Resolution): (after: bool)
    ensures after <==> res == NeedsOnboarding || (res == Raised && before)
  {
    match res
    case NeedsOnboarding => true
    case Resolved => false
    case Raised => before
  }

  /** The screen the application renders. */
  datatype Screen = LoadingScreen | SetupScreen | ProfilePendingScreen | AdminScreen | EmployeeScreen

  /** The render decision of the application, checked in the order the source checks it. */
  function ScreenOf(loading: bool, needsSetup: bool, employee: Option<Employee>, role: Option<UserRole>): (s: Screen)
    ensures s == LoadingScreen <==> loading
    ensures s == SetupScreen <==> !loading && needsSetup
    ensures s == ProfilePendingScreen <==> !loading && !needsSetup && (employee.None? || role.None?)
    ensures s == AdminScreen <==>
      !loading && !needsSetup && employee.Some? && role.Some? && role.value.role == "admin"
    ensures s == EmployeeScreen <==>
      !loading && !needsSetup && employee.Some? && role.Some? && role.value.role != "admin"
  {
    if loading then LoadingScreen
    else if needsSetup then SetupScreen
    else if employee.None? || role.None? then ProfilePendingScreen
    else if role.value.role == "admin" then AdminScreen
    else EmployeeScreen
  }

  /**
    As written, a user who needed onboarding and then completed it (the
    re-run lookup finds an admin role and an employee row) still sees the
    setup screen.
  */
  lemma SetupScreenSticksAsWritten(e: Employee, role: UserRole)
    requires role.role == "admin"
    ensures ScreenOf(false, NeedsSetupAsWritten(true, Resolved), Some(e), Some(role)) == SetupScreen
  {
  }

  /** With `needsSetup` cleared on resolution, a resolved user reaches the screen of their role. */
  lemma ResolvedUserLeavesSetup(before: bool, e: Employee, role: UserRole)
    ensures var s := ScreenOf(false, NeedsSetupAfter(before, Resolved), Some(e), Some(role));
      && (role.role == "admin" ==> s == AdminScreen)
      && (role.role != "admin" ==> s == EmployeeScreen)
  {
  }

  /** A lookup error that `fetchEmployeeData` rethrows: any error but "no rows". */
  predicate Raises<T>(reply: Reply<T>) {
    reply.Fail? && reply.error.code != NoRowsCode
  }

  /** The employee row is usable: present with a non-empty organization code. */
  predicate HasOrganization(e: Employee) {
    e.orgCode.Some? && e.orgCode.value != ""
  }

  /** The state of the application component for one signed-in user. */
  class App {
    const userId: string
    var employee: Option<Employee>
    var userRole: Option<UserRole>
    var todayRecord: Option<AttendanceRecord>
    var attendanceRecords: seq<AttendanceRecord>
    var loading: bool
    var needsSetup: bool

    constructor(userId: string)
      ensures this.userId == userId
      ensures employee.None? && userRole.None? && todayRecord.None?
      ensures attendanceRecords == [] && loading && !needsSetup
    {
      this.userId := userId;
      employee, userRole, todayRecord := None, None, None;
      attendanceRecords := [];
      loading, needsSetup := true, false;
    }

    /**
      `fetchEmployeeData`: look up the role, then the employee row, then (for
      a non-admin) today's record and all records, stopping at the first gap
      or error. The replies of the lookups are the arguments; `calls` lists
      the lookups issued.
    */
    method FetchEmployeeData(nowIso: string, roleReply: Reply<UserRole>, employeeReply: Reply<Employee>,
                             todayReply: Reply<AttendanceRecord>, allReply: Reply<seq<AttendanceRecord>>)
      returns (calls: seq<Call>, errorShown: bool)
      modifies this
      ensures !loading
      ensures |calls| >= 1 && calls[0] == SelectRole(userId)
      // a role lookup error other than "no rows" is reported and changes nothing else
      ensures Raises(roleReply) ==>
        && calls == [SelectRole(userId)] && errorShown
        && userRole == old(userRole) && employee == old(employee) && needsSetup == old(needsSetup)
      // no role row: onboarding, with no further lookups
      ensures !Raises(roleReply) && !roleReply.Row? ==>
        && calls == [SelectRole(userId)] && !errorShown && needsSetup
        && userRole == old(userRole) && employee == old(employee)
      ensures roleReply.Row? ==>
        && userRole == Some(roleReply.value)
        && |calls| >= 2 && calls[1] == SelectEmployee(userId, roleReply.value.orgCode)
      // an employee lookup error is reported; the role stays set
      ensures roleReply.Row? && employeeReply.Fail? ==>
        && calls == calls[..2] && errorShown && employee == old(employee) && needsSetup == old(needsSetup)
      // no employee row, or one without an organization code: onboarding
      ensures roleReply.Row? && !employeeReply.Fail? && !(employeeReply.Row? && HasOrganization(employeeReply.value)) ==>
        && calls == calls[..2] && !errorShown && needsSetup && employee == old(employee)
      ensures roleReply.Row? && employeeReply.Row? && HasOrganization(employeeReply.value) ==>
        && employee == Some(employeeReply.value) && needsSetup == old(needsSetup) && !errorShown
      // an admin stops before any attendance lookup
      ensures roleReply.Row? && employeeReply.Row? && HasOrganization(employeeReply.value)
              && roleReply.value.role == "admin" ==>
        && calls == calls[..2]
        && todayRecord == old(todayRecord) && attendanceRecords == old(attendanceRecords)
      ensures roleReply.Row? && employeeReply.Row? && HasOrganization(employeeReply.value)
              && roleReply.value.role != "admin" ==>
        && calls == calls[..2] + [SelectTodayRecord(employeeReply.value.id, DateKey(nowIso)),
                                  SelectAllRecords(employeeReply.value.id)]
        && todayRecord == (if Raises(todayReply) then old(todayRecord)
                           else if todayReply.Row? then Some(todayReply.value) else None)
        && attendanceRecords == (match allReply
                                 case Row(rs) => rs
                                 case NoRow => []
                                 case Fail(_) => old(attendanceRecords))
      ensures !(roleReply.Row? && employeeReply.Row? && HasOrganization(employeeReply.value)
                && roleReply.value.role != "admin") ==>
        todayRecord == old(todayRecord) && attendanceRecords == old(attendanceRecords)
    {
      errorShown := false;
      calls := [SelectRole(userId)];
      if Raises(roleReply) {
        errorShown := true;
        needsSetup := NeedsSetupAsWritten(needsSetup, Raised);
        loading := false;
        return;
      }
      if !roleReply.Row? {
        needsSetup := NeedsSetupAsWritten(needsSetup, NeedsOnboarding);
        loading := false;
        return;
      }
      var role := roleReply.value;
      userRole := Some(role);

      calls := calls + [SelectEmployee(userId, role.orgCode)];
      if employeeReply.Fail? {
        errorShown := true;
        needsSetup := NeedsSetupAsWritten(needsSetup, Raised);
        loading := false;
        return;
      }
      if !(employeeReply.Row? && HasOrganization(employeeReply.value)) {
        needsSetup := NeedsSetupAsWritten(needsSetup, NeedsOnboarding);
        loading := false;
        return;
      }
      var e := employeeReply.value;
      employee := Some(e);
      needsSetup := NeedsSetupAsWritten(needsSetup, Resolved);

      if role.role == "admin" {
        loading := false;
        return;
      }

      calls := calls + [SelectTodayRecord(e.id, DateKey(nowIso))];
      if !Raises(todayReply) {
        todayRecord := if todayReply.Row? then Some(todayReply.value) else None;
      }

      calls := calls + [SelectAllRecords(e.id)];
      match allReply {
        case Row(rs) => attendanceRecords := rs;
        case NoRow => attendanceRecords := [];
        case Fail(_) =>
      }
      loading := false;
    }

    /**
      `handleFingerprintAuth`: a check-in inserts today's row and, when the
      store returns the new record, makes it today's record and prepends it
      to the list; a check-out updates today's record by id and replaces the
      returned record in the list. A store error is reported and changes
      nothing.
    */
    method HandleFingerprintAuth(action: Action, now: int, nowIso: string,
                                 insertReply: Reply<AttendanceRecord>, updateReply: Reply<AttendanceRecord>)
      returns (calls: seq<Call>, errorShown: bool)
      modifies this`todayRecord, this`attendanceRecords
      // no employee loaded, or a check-out without today's record: nothing happens
      ensures (employee.None? || (action == CheckOutAction && old(todayRecord).None?)) ==>
        calls == [] && !errorShown && todayRecord == old(todayRecord) && attendanceRecords == old(attendanceRecords)
      ensures employee.Some? && action == CheckInAction ==>
        && calls == [InsertAttendance(CheckInRow(employee.value, now, DateKey(nowIso)))]
        && errorShown == insertReply.Fail?
        && todayRecord == (if insertReply.Row? then Some(insertReply.value) else old(todayRecord))
        && attendanceRecords == (if insertReply.Row? then [insertReply.value] + old(attendanceRecords)
                                 else old(attendanceRecords))
      ensures employee.Some? && action == CheckOutAction && old(todayRecord).Some? ==>
        && calls == [UpdateAttendance(old(todayRecord).value.id, now, CheckedOut)]
        && errorShown == updateReply.Fail?
        && todayRecord == (if updateReply.Row? then Some(updateReply.value) else old(todayRecord))
        && attendanceRecords == (if updateReply.Row? then ReplaceById(old(attendanceRecords), updateReply.value)
                                 else old(attendanceRecords))
    {
      calls, errorShown := [], false;
      if employee.None? {
        return;
      }
      var today := DateKey(nowIso);
      if action == CheckInAction {
        calls := [InsertAttendance(CheckInRow(employee.value, now, today))];
        match insertReply {
          case Fail(_) => errorShown := true;
          case NoRow =>
          case Row(data) =>
            todayRecord := Some(data);
            attendanceRecords := [data] + attendanceRecords;
        }
      } else {
        if todayRecord.None? {
          return;
        }
        calls := [UpdateAttendance(todayRecord.value.id, now, CheckedOut)];
        match updateReply {
          case Fail(_) => errorShown := true;
          case NoRow =>
          case Row(data) =>
            todayRecord := Some(data);
            attendanceRecords := ReplaceById(attendanceRecords, data);
        }
      }
    }

    /**
      The scanner's `onAuthenticated`: a disabled scanner does nothing;
      otherwise it runs the action chosen from today's record, which is a
      check-out exactly when today's record is checked in.
    */
    method OnScannerAuthenticated(now: int, nowIso: string,
                                  insertReply: Reply<AttendanceRecord>, updateReply: Reply<AttendanceRecord>)
      returns (calls: seq<Call>, errorShown: bool)
      modifies this`todayRecord, this`attendanceRecords
      ensures ScannerDisabled(old(todayRecord)) || employee.None? ==>
        calls == [] && !errorShown && todayRecord == old(todayRecord) && attendanceRecords == old(attendanceRecords)
      // enabled, with no record for today or an 'absent' one: check in
      ensures !ScannerDisabled(old(todayRecord)) && employee.Some? && NextAction(old(todayRecord)) == CheckInAction ==>
        && (old(todayRecord).None? || old(todayRecord).value.status == Absent)
        && calls == [InsertAttendance(CheckInRow(employee.value, now, DateKey(nowIso)))]
        && errorShown == insertReply.Fail?
        && todayRecord == (if insertReply.Row? then Some(insertReply.value) else old(todayRecord))
        && attendanceRecords == (if insertReply.Row? then [insertReply.value] + old(attendanceRecords)
                                 else old(attendanceRecords))
      // enabled and checked in: check out
      ensures !ScannerDisabled(old(todayRecord)) && employee.Some? && NextAction(old(todayRecord)) == CheckOutAction ==>
        && old(todayRecord).Some? && old(todayRecord).value.status == CheckedIn
        && calls == [UpdateAttendance(old(todayRecord).value.id, now, CheckedOut)]
        && errorShown == updateReply.Fail?
        && todayRecord == (if updateReply.Row? then Some(updateReply.value) else old(todayRecord))
        && attendanceRecords == (if updateReply.Row? then ReplaceById(old(attendanceRecords), updateReply.value)
                                 else old(attendanceRecords))
    {
      calls, errorShown := [], false;
      if ScannerDisabled(todayRecord) {
        return;
      }
      calls, errorShown := HandleFingerprintAuth(NextAction(todayRecord), now, nowIso, insertReply, updateReply);
    }
  }
}
