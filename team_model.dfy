/** The Team record of backend/models/Team.js: schema, defaults, the `unique`
    index on `teamId` and the password hook that runs before every save. */
module TeamModel {
  import opened Wrappers
  import opened Documents

  /** A registered team. `password` holds whatever the save hook stored
      (a hash once the record was first saved). */
  datatype Team = Team(
    teamId: string,
    teamName: string,
    password: string,
    leader: string,
    contact: string,
    members: seq<string>,
    selectedProblem: Option<ObjectId>,
    selectionTime: Option<Timestamp>,
    isActive: bool)

  /** A team that has not chosen a problem yet. */
  predicate Unselected(t: Team) {
    t.selectedProblem.None? && t.selectionTime.None?
  }

  /** `selectedProblem` is null exactly when `selectionTime` is null. */
  predicate SelectionFieldsAgree(t: Team) {
    t.selectedProblem.None? <==> t.selectionTime.None?
  }

  /** A new team document: the schema's defaults leave it unselected and active. */
  function NewTeam(teamId: string, teamName: string, password: string, leader: string,
                   contact: string, members: seq<string>): (t: Team)
    ensures t.teamId == teamId && t.teamName == teamName && t.password == password
    ensures t.leader == leader && t.contact == contact && t.members == members
    ensures Unselected(t) && SelectionFieldsAgree(t)
    ensures t.isActive
  {
    Team(teamId, teamName, password, leader, contact, members, None, None, true)
  }

  /** The `pre('save')` hook. bcrypt is a parameter: `hash` is an arbitrary
      function of the plain text and the salt, and `salt` stands for the value
      `genSalt` returned. A save that did not modify the password leaves the
      stored value as it was; otherwise only the password changes. */
  function PreSave(t: Team, passwordModified: bool, salt: string,
                   hash: (string, string) -> string): (saved: Team)
    ensures !passwordModified ==> saved == t
    ensures passwordModified ==> saved.password == hash(t.password, salt)
    ensures saved.(password := t.password) == t
  {
    if !passwordModified then t else t.(password := hash(t.password, salt))
  }

  /** The `unique` index on `teamId`. */
  ghost predicate UniqueTeamIds(teams: map<ObjectId, Team>) {
    forall k1, k2 :: k1 in teams && k2 in teams && teams[k1].teamId == teams[k2].teamId ==> k1 == k2
  }

  /** `Team.findOne({ teamId })`: the key of the team whose `teamId` matches,
      or None. The unique index makes the answer unique. */
  function FindTeam(teams: map<ObjectId, Team>, teamId: string): (r: Option<ObjectId>)
    requires UniqueTeamIds(teams)
    ensures r.Some? ==> r.value in teams && teams[r.value].teamId == teamId
    ensures r.None? ==> forall k :: k in teams ==> teams[k].teamId != teamId
  {
    if exists k :: k in teams && teams[k].teamId == teamId then
      var k :| k in teams && teams[k].teamId == teamId; Some(k)
    else None
  }

  /** Under the unique index, `findOne({ teamId })` finds the one team that has
      that `teamId`, and never a different one. */
  lemma FindTeamUnique(teams: map<ObjectId, Team>, teamId: string, k: ObjectId)
    requires UniqueTeamIds(teams)
    requires k in teams && teams[k].teamId == teamId
    ensures FindTeam(teams, teamId) == Some(k)
    ensures forall k' :: k' in teams && teams[k'].teamId == teamId ==> k' == k
  {
  }
}
