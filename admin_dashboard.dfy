/**
  The administrator's dashboard: it loads the administrator's organization
  and its employees, and replaces the organization's join code with a fresh
  one that is valid for thirty days. Store replies are arguments and `calls`
  lists the store calls issued.
*/
module AdminDashboard {
  import opened Store
  import opened Entities
  import OrgCode

  /** The store calls of the dashboard. */
  datatype Call =
    | SelectOrganization(orgCode: string)
    | SelectEmployees(orgCode: string)
    | UpdateOrganizationCode(id: string, orgCode: string, expiresAt: int)

  /** Thirty days in milliseconds: how long a regenerated code stays valid. */
  const CodeValidity: int := 30 * 24 * 60 * 60 * 1000

  /** What the update call writes into the stored row it targets. */
  function StoredAfterUpdate(row: Organization, call: Call): (r: Organization)
    requires call.UpdateOrganizationCode? && call.id == row.id
    ensures r.orgCode == call.orgCode && r.expiresAt == call.expiresAt
    ensures r.(orgCode := row.orgCode, expiresAt := row.expiresAt) == row
  {
    row.(orgCode := call.orgCode, expiresAt := call.expiresAt)
  }

  /** The local copy after a successful regeneration: `{ ...prev, org_code: newCode }`. */
  function LocalAfterRegenerate(org: Organization, code: string): (r: Organization)
    ensures r.orgCode == code
    ensures r.(orgCode := org.orgCode) == org
  {
    org.(orgCode := code)
  }

  /**
    The local copy and the stored row agree on the code, but the local copy
    keeps the old expiry: it differs from the store exactly when the old
    expiry was not already the new one.
  */
  lemma LocalCopyKeepsOldExpiry(org: Organization, code: string, now: int)
    ensures var call := UpdateOrganizationCode(org.id, code, now + CodeValidity);
      && LocalAfterRegenerate(org, code).orgCode == StoredAfterUpdate(org, call).orgCode
      && (LocalAfterRegenerate(org, code) == StoredAfterUpdate(org, call) <==> org.expiresAt == now + CodeValidity)
  {
    var call := UpdateOrganizationCode(org.id, code, now + CodeValidity);
    if org.expiresAt != now + CodeValidity {
      assert LocalAfterRegenerate(org, code).expiresAt != StoredAfterUpdate(org, call).expiresAt;
    }
  }

  /** The dashboard of one administrator. */
  class Dashboard {
    const employee: Employee
    const orgCode: string
    var organization: Option<Organization>
    var employees: seq<Employee>
    var loading: bool

    constructor(employee: Employee)
      requires employee.orgCode.Some?
      ensures this.employee == employee && orgCode == employee.orgCode.value
      ensures organization.None? && employees == [] && loading
    {
      this.employee := employee;
      orgCode := employee.orgCode.value;
      organization := None;
      employees := [];
      loading := true;
    }

    /**
      `fetchOrganizationData`: the organization row with the administrator's
      code (a single-row lookup, so "no row" is an error too), then the
      organization's employees; an error is reported and stops the fetch.
    */
    method FetchOrganizationData(orgReply: Reply<Organization>, employeesReply: Reply<seq<Employee>>)
      returns (calls: seq<Call>, errorShown: bool)
      modifies this`organization, this`employees, this`loading
      ensures !loading
      ensures !orgReply.Row? ==>
        && calls == [SelectOrganization(orgCode)] && errorShown
        && organization == old(organization) && employees == old(employees)
      ensures orgReply.Row? ==>
        && calls == [SelectOrganization(orgCode), SelectEmployees(orgCode)]
        && organization == Some(orgReply.value)
        && errorShown == employeesReply.Fail?
        && employees == (match employeesReply
                         case Row(es) => es
                         case NoRow => []
                         case Fail(_) => old(employees))
    {
      calls := [SelectOrganization(orgCode)];
      errorShown := false;
      if !orgReply.Row? {
        errorShown := true;
        loading := false;
        return;
      }
      organization := Some(orgReply.value);

      calls := calls + [SelectEmployees(orgCode)];
      match employeesReply {
        case Row(es) => employees := es;
        case NoRow => employees := [];
        case Fail(_) => errorShown := true;
      }
      loading := false;
    }

    /**
      `regenerateCode`: with an organization loaded, draw a new code, write it
      with an expiry thirty days from now, and on success change the local
      copy's code only. A store error is reported and changes nothing.
    */
    method RegenerateCode(draws: seq<nat>, now: int, reply: Outcome)
      returns (calls: seq<Call>, errorShown: bool)
      requires |draws| == OrgCode.CodeLength && OrgCode.InAlphabet(draws)
      modifies this`organization
      ensures old(organization).None? ==> calls == [] && !errorShown && organization == old(organization)
      ensures old(organization).Some? ==>
        var org := old(organization).value;
        var code := OrgCode.CodeOf(draws);
        && OrgCode.IsValidCode(code)
        && calls == [UpdateOrganizationCode(org.id, code, now + CodeValidity)]
        && errorShown == reply.Err?
        && organization == (if reply.Err? then Some(org) else Some(LocalAfterRegenerate(org, code)))
    {
      calls := [];
      errorShown := false;
      if organization.None? {
        return;
      }
      var org := organization.value;
      var code := OrgCode.GenerateOrgCode(draws);

      calls := [UpdateOrganizationCode(org.id, code, now + CodeValidity)];
      if reply.Err? {
        errorShown := true;
        return;
      }
      organization := Some(LocalAfterRegenerate(org, code));
    }
  }
}
