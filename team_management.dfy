/**
  The team registry of one organization: the loaded teams, the members
  loaded per team, the team being created and the selected team. Store
  replies are arguments and `calls` lists the store calls issued. React's
  effect that loads a newly selected team's members is the separate
  `LoadTeamMembers` call.
*/
module TeamManagement {
  import opened Store
  import opened Text

  /** A row of `teams`. */
  datatype Team = Team(id: string, name: string, createdAt: string, orgCode: string)

  /** A member as the registry shows it. */
  datatype TeamMember = TeamMember(id: string, employeeId: string, name: string, email: string, role: string)

  /** The employee columns joined onto a `team_members` row. */
  datatype EmployeeRef = EmployeeRef(id: string, name: string, email: string, role: string)

  /** A `team_members` row with its joined employee, as the store returns it. */
  datatype MemberRow = MemberRow(id: string, employee: EmployeeRef)

  /** The store calls of the registry. */
  datatype Call =
    | SelectTeams(orgCode: string)
    | SelectMembers(teamId: string)
    | InsertTeam(name: string, orgCode: string, createdAt: string)
    | DeleteMembers(teamId: string)
    | DeleteTeamRow(teamId: string)

  /** JavaScript truthiness of the selection: neither null nor the empty string. */
  predicate IsSet(selection: Option<string>) {
    selection.Some? && selection.value != ""
  }

  /** `data || []` for a list reply that is not an error. */
  function RowsOf<T>(reply: Reply<seq<T>>): (rows: seq<T>)
    requires !reply.Fail?
    ensures reply.Row? ==> rows == reply.value
    ensures reply.NoRow? ==> rows == []
  {
    if reply.Row? then reply.value else []
  }

  /**
    The selection after teams are loaded: the first team when nothing is
    selected and some team was loaded, otherwise the selection as it was.
  */
  function SelectionAfterLoad(selection: Option<string>, teams: seq<Team>): (s: Option<string>)
    ensures !IsSet(selection) && teams != [] ==> s == Some(teams[0].id)
    ensures IsSet(selection) || teams == [] ==> s == selection
  {
    if teams != [] && !IsSet(selection) then Some(teams[0].id) else selection
  }

  /** After a load the selection is the one kept or the id of a loaded team, and reloading changes nothing more. */
  lemma SelectionAfterLoadProperties(selection: Option<string>, teams: seq<Team>)
    ensures var s := SelectionAfterLoad(selection, teams);
      && (s == selection || exists t :: t in teams && s == Some(t.id))
      && SelectionAfterLoad(s, teams) == s
  {
    if teams != [] && !IsSet(selection) {
      assert teams[0] in teams;
    }
  }

  /**
    The selection once a deletion of `teamId` and the reload it starts have
    both finished. The reload still sees the selection from before the
    deletion, so it picks the first team only when nothing was selected;
    the deletion itself clears the selection when it was the deleted team,
    and the reload's choice lands after that.
  */
  function SelectionAfterDelete(selection: Option<string>, teamId: string, reloaded: seq<Team>): (s: Option<string>)
    ensures !IsSet(selection) && reloaded != [] ==> s == Some(reloaded[0].id)
    ensures IsSet(selection) || reloaded == [] ==> (s == None <==> selection == None || selection == Some(teamId))
    ensures IsSet(selection) || reloaded == [] ==> s != None ==> s == selection
  {
    var cleared := if selection == Some(teamId) then None else selection;
    if reloaded != [] && !IsSet(selection) then Some(reloaded[0].id) else cleared
  }

  /**
    Deleting the selected team clears the selection even when teams remain;
    deleting another team keeps it; and when the reloaded list no longer
    holds the deleted team, it is never selected afterwards.
  */
  lemma DeleteSelectionRules(selection: Option<string>, teamId: string, reloaded: seq<Team>)
    ensures teamId != "" && selection == Some(teamId) ==> SelectionAfterDelete(selection, teamId, reloaded) == None
    ensures IsSet(selection) && selection != Some(teamId) ==> SelectionAfterDelete(selection, teamId, reloaded) == selection
    ensures (forall t :: t in reloaded ==> t.id != teamId) ==> SelectionAfterDelete(selection, teamId, reloaded) != Some(teamId)
  {
    if reloaded != [] && !IsSet(selection) {
      assert reloaded[0] in reloaded;
    }
  }

  /** One joined row as a member: the row's id and the employee's id, name, email and role. */
  function ToMember(row: MemberRow): TeamMember {
    TeamMember(row.id, row.employee.id, row.employee.name, row.employee.email, row.employee.role)
  }

  /** The member transform: one member per row, in the rows' order. */
  function ToMembers(rows: seq<MemberRow>): (members: seq<TeamMember>)
    ensures |members| == |rows|
    ensures forall i :: 0 <= i < |rows| ==>
      && members[i].id == rows[i].id
      && members[i].employeeId == rows[i].employee.id
      && members[i].name == rows[i].employee.name
      && members[i].email == rows[i].employee.email
      && members[i].role == rows[i].employee.role
  {
    if rows == [] then [] else [ToMember(rows[0])] + ToMembers(rows[1..])
  }

  /** The transform works row by row: transforming a concatenation concatenates the transforms. */
  lemma {:induction false} ToMembersAppend(a: seq<MemberRow>, b: seq<MemberRow>)
    ensures ToMembers(a + b) == ToMembers(a) + ToMembers(b)
  {
    if a != [] {
      assert (a + b)[1..] == a[1..] + b;
      ToMembersAppend(a[1..], b);
    }
  }

  /** `{ ...prev, [teamId]: members }`: the map with one key set. */
  function WithMembers(m: map<string, seq<TeamMember>>, teamId: string, members: seq<TeamMember>)
    : (r: map<string, seq<TeamMember>>)
    ensures teamId in r && r[teamId] == members
    ensures forall k :: k != teamId ==> (k in r <==> k in m)
    ensures forall k :: k != teamId && k in m ==> r[k] == m[k]
  {
    m[teamId := members]
  }

  /** Loading the same team twice keeps the later load; loads of different teams commute. */
  lemma WithMembersOverwriteAndCommute(m: map<string, seq<TeamMember>>, a: string, b: string,
                                       x: seq<TeamMember>, y: seq<TeamMember>)
    ensures WithMembers(WithMembers(m, a, x), a, y) == WithMembers(m, a, y)
    ensures a != b ==> WithMembers(WithMembers(m, a, x), b, y) == WithMembers(WithMembers(m, b, y), a, x)
  {
  }

  /** The registry component of one organization. */
  class Registry {
    const orgCode: string
    var teams: seq<Team>
    var teamMembers: map<string, seq<TeamMember>>
    var newTeamName: string
    var isLoading: bool
    var selectedTeam: Option<string>

    constructor(orgCode: string)
      ensures this.orgCode == orgCode
      ensures teams == [] && teamMembers == map[] && newTeamName == "" && !isLoading && selectedTeam.None?
    {
      this.orgCode := orgCode;
      teams := [];
      teamMembers := map[];
      newTeamName := "";
      isLoading := false;
      selectedTeam := None;
    }

    /**
      `loadTeams`: the organization's teams replace the list and the first
      one is selected when nothing is; an error is reported and changes
      nothing.
    */
    method LoadTeams(reply: Reply<seq<Team>>) returns (calls: seq<Call>, errorShown: bool)
      modifies this`teams, this`selectedTeam, this`isLoading
      ensures calls == [SelectTeams(orgCode)] && !isLoading && errorShown == reply.Fail?
      ensures reply.Fail? ==> teams == old(teams) && selectedTeam == old(selectedTeam)
      ensures !reply.Fail? ==>
        teams == RowsOf(reply) && selectedTeam == SelectionAfterLoad(old(selectedTeam), RowsOf(reply))
    {
      isLoading := true;
      calls := [SelectTeams(orgCode)];
      errorShown := false;
      if reply.Fail? {
        errorShown := true;
      } else {
        var data := RowsOf(reply);
        teams := data;
        selectedTeam := SelectionAfterLoad(selectedTeam, data);
      }
      isLoading := false;
    }

    /**
      `loadTeamMembers`: the team's member rows, transformed, become that
      team's entry in the member map; other teams' entries stay. An error is
      reported and changes nothing.
    */
    method LoadTeamMembers(teamId: string, reply: Reply<seq<MemberRow>>) returns (calls: seq<Call>, errorShown: bool)
      modifies this`teamMembers
      ensures calls == [SelectMembers(teamId)] && errorShown == reply.Fail?
      ensures reply.Fail? ==> teamMembers == old(teamMembers)
      ensures !reply.Fail? ==> teamMembers == WithMembers(old(teamMembers), teamId, ToMembers(RowsOf(reply)))
    {
      calls := [SelectMembers(teamId)];
      errorShown := false;
      if reply.Fail? {
        errorShown := true;
        return;
      }
      teamMembers := WithMembers(teamMembers, teamId, ToMembers(RowsOf(reply)));
    }

    /**
      `createTeam`: a blank name does nothing; otherwise the trimmed name is
      inserted, and on success the input is cleared and the teams reloaded.
    */
    method CreateTeam(nowIso: string, insertReply: Outcome, reloadReply: Reply<seq<Team>>)
      returns (calls: seq<Call>, errorShown: bool)
      modifies this`teams, this`selectedTeam, this`isLoading, this`newTeamName
      ensures IsBlank(old(newTeamName)) ==>
        && calls == [] && !errorShown && isLoading == old(isLoading)
        && newTeamName == old(newTeamName) && teams == old(teams) && selectedTeam == old(selectedTeam)
      ensures !IsBlank(old(newTeamName)) ==> !isLoading && Trim(old(newTeamName)) != ""
      ensures !IsBlank(old(newTeamName)) && insertReply.Err? ==>
        && calls == [InsertTeam(Trim(old(newTeamName)), orgCode, nowIso)] && errorShown
        && newTeamName == old(newTeamName) && teams == old(teams) && selectedTeam == old(selectedTeam)
      ensures !IsBlank(old(newTeamName)) && insertReply.Ok? ==>
        && calls == [InsertTeam(Trim(old(newTeamName)), orgCode, nowIso), SelectTeams(orgCode)]
        && newTeamName == "" && errorShown == reloadReply.Fail?
        && (reloadReply.Fail? ==> teams == old(teams) && selectedTeam == old(selectedTeam))
        && (!reloadReply.Fail? ==>
              teams == RowsOf(reloadReply) && selectedTeam == SelectionAfterLoad(old(selectedTeam), RowsOf(reloadReply)))
    {
      calls := [];
      errorShown := false;
      if IsBlank(newTeamName) {
        return;
      }
      isLoading := true;
      calls := [InsertTeam(Trim(newTeamName), orgCode, nowIso)];
      if insertReply.Err? {
        errorShown := true;
        isLoading := false;
        return;
      }
      newTeamName := "";
      var reload;
      reload, errorShown := LoadTeams(reloadReply);
      calls := calls + reload;
      isLoading := false;
    }

    /**
      `deleteTeam`: unless the confirmation is declined, delete the team's
      member rows, then the team row, stopping at the first error; on
      success reload the teams and clear the selection if it was the deleted
      team. The member map is not touched.
    */
    method DeleteTeam(teamId: string, confirmed: bool, membersReply: Outcome, teamReply: Outcome,
                      reloadReply: Reply<seq<Team>>)
      returns (calls: seq<Call>, errorShown: bool)
      modifies this`teams, this`selectedTeam, this`isLoading
      ensures !confirmed ==>
        calls == [] && !errorShown && isLoading == old(isLoading) && teams == old(teams) && selectedTeam == old(selectedTeam)
      ensures confirmed ==> !isLoading && 1 <= |calls| && calls[0] == DeleteMembers(teamId)
      ensures confirmed && (membersReply.Err? || teamReply.Err?) ==>
        && errorShown && teams == old(teams) && selectedTeam == old(selectedTeam)
        && calls == (if membersReply.Err? then [DeleteMembers(teamId)] else [DeleteMembers(teamId), DeleteTeamRow(teamId)])
      ensures confirmed && membersReply.Ok? && teamReply.Ok? ==>
        && calls == [DeleteMembers(teamId), DeleteTeamRow(teamId), SelectTeams(orgCode)]
        && errorShown == reloadReply.Fail?
        && teams == (if reloadReply.Fail? then old(teams) else RowsOf(reloadReply))
        && selectedTeam == SelectionAfterDelete(old(selectedTeam), teamId,
                                                if reloadReply.Fail? then [] else RowsOf(reloadReply))
    {
      calls := [];
      errorShown := false;
      if !confirmed {
        return;
      }
      isLoading := true;
      calls := [DeleteMembers(teamId)];
      if membersReply.Err? {
        errorShown := true;
        isLoading := false;
        return;
      }
      calls := calls + [DeleteTeamRow(teamId)];
      if teamReply.Err? {
        errorShown := true;
        isLoading := false;
        return;
      }
      var before := selectedTeam;
      var reload;
      reload, errorShown := LoadTeams(reloadReply);
      calls := calls + reload;
      selectedTeam := SelectionAfterDelete(before, teamId, if reloadReply.Fail? then [] else RowsOf(reloadReply));
      isLoading := false;
    }
  }
}
