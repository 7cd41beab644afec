/**
  The rows of the store the core works with, as the application reads them.
  Timestamps are integer milliseconds since the epoch; calendar dates are
  `YYYY-MM-DD` strings.
*/
module Entities {
  import opened Store

  /** `status` of an attendance record: 'checked-in' | 'checked-out' | 'absent'. */
  datatype Status = CheckedIn | CheckedOut | Absent

  /** One employee's check-in/check-out state for one calendar day. */
  datatype AttendanceRecord = AttendanceRecord(
    id: string,
    employeeId: string,
    checkIn: Option<int>,
    checkOut: Option<int>,
    date: string,
    status: Status,
    fingerprintVerified: bool)

  /** A row of `employees`. */
  datatype Employee = Employee(
    id: string,
    userId: string,
    employeeCode: string,
    name: string,
    email: string,
    department: string,
    role: string,
    orgCode: Option<string>)

  /** A row of `user_roles`. */
  datatype UserRole = UserRole(id: string, userId: string, role: string, orgCode: Option<string>)

  /** A row of `organization_codes`. */
  datatype Organization = Organization(
    id: string,
    adminId: string,
    orgName: string,
    orgCode: string,
    active: bool,
    createdAt: int,
    expiresAt: int)

  /** The signed-in user: identity plus the optional profile fields the application reads. */
  datatype User = User(id: string, metadataName: Option<string>, email: Option<string>)
}
