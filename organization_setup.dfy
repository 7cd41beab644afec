/**
  Onboarding: creating an organization (the creator becomes its admin) or
  joining one with its code (the user becomes an employee). Each is a
  sequence of store writes that stops at the first error; the replies are
  arguments and `calls` lists the writes issued.
*/
module OrganizationSetup {
  import opened Store
  import opened Entities
  import opened Text
  import OrgCode

  /** The row inserted into `organization_codes`. */
  datatype NewOrganization = NewOrganization(adminId: string, orgName: string, orgCode: string, active: bool)

  /** The row inserted into `user_roles`; the permission object is the list of its true flags. */
  datatype NewRole = NewRole(userId: string, role: string, orgCode: string, permissions: seq<string>)

  /** The row inserted (or upserted) into `employees`. */
  datatype NewEmployee = NewEmployee(
    userId: string,
    employeeCode: string,
    name: string,
    email: string,
    department: string,
    role: string,
    orgCode: string)

  /** The store calls of onboarding. */
  datatype Call =
    | InsertOrganization(org: NewOrganization)
    | InsertRole(role: NewRole)
    | UpsertEmployee(employee: NewEmployee)
    | SelectActiveOrganization(orgCode: string)
    | InsertEmployee(employee: NewEmployee)

  /** How a create or join attempt ends. */
  datatype SetupResult = Skipped | Completed(shown: string) | Failed(message: string)

  const AdminPermissions: seq<string> := ["manage_employees", "view_reports"]
  const EmployeePermissions: seq<string> := ["view_attendance"]
  const InvalidCodeMessage: string := "Invalid or expired organization code"
  const ExpiredCodeMessage: string := "Organization code has expired"
  const CreateFailedMessage: string := "Failed to create organization"
  const JoinFailedMessage: string := "Failed to join organization"

  /** `email.split('@')[0]`: the email up to its first '@'. */
  function LocalPart(email: string): (p: string)
    ensures p == Split(email, '@')[0]
    ensures '@' !in p && |p| <= |email| && p == email[..|p|]
  {
    BeforeIsFirstPart(email, '@');
    Before(email, '@')
  }

  /**
    `user.user_metadata?.name || user.email?.split('@')[0] || fallback`: the
    first non-empty of the profile name and the email's local part, else the
    fallback.
  */
  function NameFor(user: User, fallback: string): (name: string)
    ensures user.metadataName.Some? && user.metadataName.value != "" ==> name == user.metadataName.value
    ensures (!(user.metadataName.Some? && user.metadataName.value != "") && user.email.Some?
             && LocalPart(user.email.value) != "") ==> name == LocalPart(user.email.value)
    ensures (!(user.metadataName.Some? && user.metadataName.value != "")
             && !(user.email.Some? && LocalPart(user.email.value) != "")) ==> name == fallback
    ensures fallback != "" ==> name != ""
  {
    if user.metadataName.Some? && user.metadataName.value != "" then user.metadataName.value
    else if user.email.Some? && LocalPart(user.email.value) != "" then LocalPart(user.email.value)
    else fallback
  }

  /** `user.email || ''`. */
  function EmailOf(user: User): (email: string)
    ensures user.email.Some? ==> email == user.email.value
    ensures user.email.None? ==> email == ""
  {
    if user.email.Some? then user.email.value else ""
  }

  /** `tag + user.id.slice(0, 8)`: the tag followed by at most the first eight characters of the id. */
  function EmployeeCode(tag: string, userId: string): (c: string)
    ensures |c| == |tag| + (if |userId| < 8 then |userId| else 8)
    ensures c[..|tag|] == tag && c[|tag|..] == userId[..|c| - |tag|]
  {
    tag + Prefix(userId, 8)
  }

  /** Who an onboarding employee row is for: the organization's creator, or a user joining with a code. */
  datatype Onboarding = AsAdmin | AsEmployee

  /**
    The employee row written by onboarding: the code tag, name fallback,
    department and role depend on who is onboarded; the organization code
    is the one created or joined.
  */
  function OnboardedEmployee(user: User, code: string, kind: Onboarding): (e: NewEmployee)
    ensures kind == AsAdmin ==>
      && e.employeeCode == EmployeeCode("ADMIN_", user.id) && e.name == NameFor(user, "Admin")
      && e.department == "Administration" && e.role == "admin"
    ensures kind == AsEmployee ==>
      && e.employeeCode == EmployeeCode("EMP_", user.id) && e.name == NameFor(user, "Employee")
      && e.department == "General" && e.role == "employee"
    ensures e.userId == user.id && e.email == EmailOf(user) && e.orgCode == code && e.name != ""
  {
    match kind
    case AsAdmin =>
      NewEmployee(user.id, EmployeeCode("ADMIN_", user.id), NameFor(user, "Admin"), EmailOf(user),
                  "Administration", "admin", code)
    case AsEmployee =>
      NewEmployee(user.id, EmployeeCode("EMP_", user.id), NameFor(user, "Employee"), EmailOf(user),
                  "General", "employee", code)
  }

  /**
    `createOrganization`: for a non-blank name, generate a code, then insert
    the organization, the admin role and the admin's employee row, stopping
    at the first error.
  */
  method CreateOrganization(user: User, orgName: string, draws: seq<nat>,
                            orgReply: Reply<Organization>, roleReply: Outcome, employeeReply: Outcome)
    returns (calls: seq<Call>, result: SetupResult)
    requires |draws| == OrgCode.CodeLength && OrgCode.InAlphabet(draws)
    ensures IsBlank(orgName) ==> calls == [] && result == Skipped
    ensures !IsBlank(orgName) ==>
      var code := OrgCode.CodeOf(draws);
      && OrgCode.IsValidCode(code)
      && 1 <= |calls| <= 3
      && calls[0] == InsertOrganization(NewOrganization(user.id, Trim(orgName), code, true))
      && (|calls| >= 2 <==> !orgReply.Fail?)
      && (|calls| >= 2 ==> calls[1] == InsertRole(NewRole(user.id, "admin", code, AdminPermissions)))
      && (|calls| == 3 <==> !orgReply.Fail? && roleReply.Ok?)
      && (|calls| == 3 ==> calls[2] == UpsertEmployee(OnboardedEmployee(user, code, AsAdmin)))
      && result == (if orgReply.Fail? then Failed(MessageOr(orgReply.error, CreateFailedMessage))
                    else if roleReply.Err? then Failed(MessageOr(roleReply.error, CreateFailedMessage))
                    else if employeeReply.Err? then Failed(MessageOr(employeeReply.error, CreateFailedMessage))
                    else Completed(code))
  {
    calls := [];
    if IsBlank(orgName) {
      return calls, Skipped;
    }
    var code := OrgCode.GenerateOrgCode(draws);

    calls := calls + [InsertOrganization(NewOrganization(user.id, Trim(orgName), code, true))];
    if orgReply.Fail? {
      return calls, Failed(MessageOr(orgReply.error, CreateFailedMessage));
    }

    calls := calls + [InsertRole(NewRole(user.id, "admin", code, AdminPermissions))];
    if roleReply.Err? {
      return calls, Failed(MessageOr(roleReply.error, CreateFailedMessage));
    }

    calls := calls + [UpsertEmployee(OnboardedEmployee(user, code, AsAdmin))];
    if employeeReply.Err? {
      return calls, Failed(MessageOr(employeeReply.error, CreateFailedMessage));
    }
    result := Completed(code);
  }

  /** What the lookup of an organization code decides. */
  datatype CodeCheck = NotFound | Expired | Usable(org: Organization)

  /**
    The checks of `joinOrganization` on the lookup's reply: no row (or any
    error) is "not found"; a row expiring strictly before now is expired.
  */
  function CheckCode(lookup: Reply<Organization>, now: int): (c: CodeCheck)
    ensures c == NotFound <==> !lookup.Row?
    ensures c == Expired <==> lookup.Row? && lookup.value.expiresAt < now
    ensures c.Usable? ==> lookup == Row(c.org) && now <= c.org.expiresAt
  {
    if !lookup.Row? then NotFound
    else if lookup.value.expiresAt < now then Expired
    else Usable(lookup.value)
  }

  /** A code that expires at the very instant of joining is still accepted. */
  lemma ExpiryInstantIsAccepted(org: Organization)
    ensures CheckCode(Row(org), org.expiresAt) == Usable(org)
    ensures CheckCode(Row(org), org.expiresAt + 1) == Expired
  {
  }

  /**
    `joinOrganization`: for a non-blank code, look up the active organization
    with the upper-cased (untrimmed) code, reject it when missing or expired,
    then insert the employee role and the employee row, stopping at the first
    error.
  */
  method JoinOrganization(user: User, joinCode: string, now: int,
                          lookup: Reply<Organization>, roleReply: Outcome, employeeReply: Outcome)
    returns (calls: seq<Call>, result: SetupResult)
    ensures IsBlank(joinCode) ==> calls == [] && result == Skipped
    ensures !IsBlank(joinCode) ==>
      var code := ToUpper(joinCode);
      var check := CheckCode(lookup, now);
      && 1 <= |calls| <= 3
      && calls[0] == SelectActiveOrganization(code)
      && (check == NotFound ==> |calls| == 1 && result == Failed(InvalidCodeMessage))
      && (check == Expired ==> |calls| == 1 && result == Failed(ExpiredCodeMessage))
      && (|calls| >= 2 <==> check.Usable?)
      && (|calls| >= 2 ==> calls[1] == InsertRole(NewRole(user.id, "employee", code, EmployeePermissions)))
      && (|calls| == 3 <==> check.Usable? && roleReply.Ok?)
      && (|calls| == 3 ==> calls[2] == InsertEmployee(OnboardedEmployee(user, code, AsEmployee)))
      && (check.Usable? ==>
            result == (if roleReply.Err? then Failed(MessageOr(roleReply.error, JoinFailedMessage))
                       else if employeeReply.Err? then Failed(MessageOr(employeeReply.error, JoinFailedMessage))
                       else Completed(check.org.orgName)))
  {
    calls := [];
    if IsBlank(joinCode) {
      return calls, Skipped;
    }
    var code := ToUpper(joinCode);

    calls := calls + [SelectActiveOrganization(code)];
    var check := CheckCode(lookup, now);
    if !check.Usable? {
      result := if check == NotFound then Failed(InvalidCodeMessage) else Failed(ExpiredCodeMessage);
      return;
    }

    calls := calls + [InsertRole(NewRole(user.id, "employee", code, EmployeePermissions))];
    if roleReply.Err? {
      return calls, Failed(MessageOr(roleReply.error, JoinFailedMessage));
    }

    calls := calls + [InsertEmployee(OnboardedEmployee(user, code, AsEmployee))];
    if employeeReply.Err? {
      return calls, Failed(MessageOr(employeeReply.error, JoinFailedMessage));
    }
    result := Completed(check.org.orgName);
  }

  /**
    A code typed in lower case looks up the same organization code it was
    generated as; surrounding spaces are kept, so such input matches no
    generated code.
  */
  lemma TypedCodeNormalisation(code: string, typed: string)
    requires OrgCode.IsValidCode(code)
    requires |typed| == |code|
    requires forall i :: 0 <= i < |code| ==>
               typed[i] == code[i] || ('A' <= code[i] <= 'Z' && typed[i] as int == code[i] as int + 32)
    ensures ToUpper(typed) == code
    ensures ToUpper([' '] + code)[0] == ' ' && !OrgCode.IsValidCode(ToUpper([' '] + code))
  {
  }
}
