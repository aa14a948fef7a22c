/** backend/routes/problems.js: the `POST /select` handler as one atomic step
    over the store, and the `GET /availability/:id` query. */
module ProblemRoutes {
  import opened Wrappers
  import opened Documents
  import opened ProblemModel
  import opened TeamModel
  import opened SelectionModel

  /** The three collections the handler reads and writes. */
  datatype State = State(
    teams: map<ObjectId, Team>,
    problems: map<ObjectId, Problem>,
    selections: seq<Selection>)

  /** Team `tk` exists and names `pk` as its selected problem. */
  ghost predicate TeamBoundTo(s: State, tk: ObjectId, pk: ObjectId) {
    tk in s.teams && s.teams[tk].selectedProblem == Some(pk)
  }

  /** The problem side and the ledger side of a binding of `tk` to `pk`. */
  ghost predicate BindingRecorded(s: State, tk: ObjectId, pk: ObjectId) {
    pk in s.problems && tk in s.problems[pk].selectedBy && ActiveEntry(s.selections, tk, pk)
  }

  /** The store invariant: the store's unique indexes, the capacity bound, and
      agreement between the team records, the problems' `selectedBy` lists and
      the active ledger entries. Active entries of teams that no longer exist
      (re-seeding deletes teams but keeps the ledger) are left unconstrained. */
  ghost predicate Invariant(s: State) {
    && UniqueTeamIds(s.teams)
    && UniqueProblemIds(s.problems)
    && AtMostOneActivePerTeam(s.selections)
    && (forall tk :: tk in s.teams ==> SelectionFieldsAgree(s.teams[tk]))
    && (forall pk :: pk in s.problems ==> WithinCapacity(s.problems[pk]) && NoDuplicateTeams(s.problems[pk]))
    && (forall tk :: tk in s.teams && s.teams[tk].selectedProblem.Some? ==>
          BindingRecorded(s, tk, s.teams[tk].selectedProblem.value))
    && (forall pk, tk :: pk in s.problems && tk in s.problems[pk].selectedBy ==> TeamBoundTo(s, tk, pk))
    && (forall i :: 0 <= i < |s.selections| && s.selections[i].status == Active && s.selections[i].team in s.teams ==>
          TeamBoundTo(s, s.selections[i].team, s.selections[i].problem))
  }

  /** The request body. A missing field reads as the empty string. */
  datatype Request = Request(problemId: string, teamId: string)

  /** The body field whose `notEmpty()` rule failed first. */
  datatype Field = ProblemIdField | TeamIdField

  /** Every way the handler can answer other than success. */
  datatype SelectError =
    | Invalid(field: Field)   // a `notEmpty()` rule failed
    | Forbidden               // the authenticated team is not the requested one
    | AlreadySelected         // the team already has a `selectedProblem`
    | ProblemNotFound         // `findById` returned null
    | NoLongerAvailable       // `isAvailable()` is false: full or inactive
    | SelectionExists         // the ledger insert hit the unique index (code 11000)
    | ServerError             // anything else caught: a `findOne` miss dereferences null

  /** The HTTP status the handler sends for each error: every refusal is a
      client error, except the caught crash, which is 500. */
  function StatusCode(e: SelectError): (r: int)
    ensures r == 500 <==> e == ServerError
    ensures r == 403 <==> e == Forbidden
    ensures r == 404 <==> e == ProblemNotFound
    ensures r != 500 ==> 400 <= r < 500
    ensures r == 400 <==> (e.Invalid? || e == AlreadySelected || e == NoLongerAvailable || e == SelectionExists)
  {
    match e
    case Invalid(_) => 400
    case Forbidden => 403
    case AlreadySelected => 400
    case ProblemNotFound => 404
    case NoLongerAvailable => 400
    case SelectionExists => 400
    case ServerError => 500
  }

  /** The `selection` object of a successful response. */
  datatype Summary = Summary(problemId: string, problemTitle: string, selectionTime: Timestamp)

  /** The team and problem keys the checks resolved. */
  datatype Binding = Binding(team: ObjectId, problem: ObjectId)

  /** The answer and the store after one call. */
  datatype Step = Step(result: Result<Summary, SelectError>, next: State)

  /** The checks of the handler, in its order; the first that fails decides the
      error. Success is exactly: both fields present, the caller is the named
      team, that team exists and has no problem yet, and the problem exists and
      is available. */
  function Validate(s: State, actingTeamId: string, req: Request): (r: Result<Binding, SelectError>)
    requires UniqueTeamIds(s.teams)
    ensures r.Success? ==>
      && r.value.team in s.teams && r.value.problem in s.problems
      && r.value.problem == req.problemId
      && s.teams[r.value.team].teamId == req.teamId == actingTeamId
      && s.teams[r.value.team].selectedProblem.None?
      && IsAvailable(s.problems[r.value.problem])
    ensures r.Success? <==>
      && req.problemId != "" && req.teamId != "" && actingTeamId == req.teamId
      && (exists tk :: tk in s.teams && s.teams[tk].teamId == req.teamId && s.teams[tk].selectedProblem.None?)
      && req.problemId in s.problems && IsAvailable(s.problems[req.problemId])
  {
    if req.problemId == "" then Failure(Invalid(ProblemIdField))
    else if req.teamId == "" then Failure(Invalid(TeamIdField))
    else if actingTeamId != req.teamId then Failure(Forbidden)
    else match FindTeam(s.teams, req.teamId)
      case None => Failure(ServerError)
      case Some(tk) =>
        if s.teams[tk].selectedProblem.Some? then Failure(AlreadySelected)
        else if req.problemId !in s.problems then Failure(ProblemNotFound)
        else if !IsAvailable(s.problems[req.problemId]) then Failure(NoLongerAvailable)
        else Success(Binding(tk, req.problemId))
  }

  /** The three writes of a successful call, committed together: the team is
      appended to the problem's `selectedBy`, the team records the problem and
      the time, and an active ledger entry is appended. Nothing else changes. */
  function Commit(s: State, b: Binding, now: Timestamp): (s': State)
    requires b.team in s.teams && b.problem in s.problems
    ensures s'.teams.Keys == s.teams.Keys && s'.problems.Keys == s.problems.Keys
    ensures s'.problems[b.problem] == s.problems[b.problem].(selectedBy := s.problems[b.problem].selectedBy + [b.team])
    ensures s'.teams[b.team] == s.teams[b.team].(selectedProblem := Some(b.problem), selectionTime := Some(now))
    ensures forall pk :: pk in s.problems && pk != b.problem ==> s'.problems[pk] == s.problems[pk]
    ensures forall tk :: tk in s.teams && tk != b.team ==> s'.teams[tk] == s.teams[tk]
    ensures s'.selections == s.selections + [NewSelection(b.team, b.problem, now)]
  {
    var p := s.problems[b.problem];
    var t := s.teams[b.team];
    State(
      s.teams[b.team := t.(selectedProblem := Some(b.problem), selectionTime := Some(now))],
      s.problems[b.problem := p.(selectedBy := p.selectedBy + [b.team])],
      s.selections + [NewSelection(b.team, b.problem, now)])
  }

  /** One `POST /select` call as an atomic step: every failure leaves the store
      as it was (the transaction is aborted), a success commits all three writes. */
  function Transition(s: State, actingTeamId: string, req: Request, now: Timestamp): (step: Step)
    requires UniqueTeamIds(s.teams)
    ensures step.result.Failure? ==> step.next == s
    ensures step.next.teams.Keys == s.teams.Keys && step.next.problems.Keys == s.problems.Keys
    ensures UniqueTeamIds(step.next.teams)
  {
    match Validate(s, actingTeamId, req)
    case Failure(e) => Step(Failure(e), s)
    case Success(b) =>
      if Insert(s.selections, NewSelection(b.team, b.problem, now)).Failure? then
        Step(Failure(SelectionExists), s)
      else
        var p := s.problems[b.problem];
        var s' := Commit(s, b, now);
        assert forall k :: k in s'.teams ==> s'.teams[k].teamId == s.teams[k].teamId;
        Step(Success(Summary(p.problemId, p.title, now)), s')
  }

  /** The `availability` object of `GET /availability/:id`. */
  datatype AvailabilityReport = AvailabilityReport(
    isAvailable: bool, slotsAvailable: int, maxTeams: int, selectedCount: nat)

  /** The one failure of the availability query: no problem has that id (404). */
  datatype QueryError = NotFound

  /** `GET /availability/:id`: the free slots and the count always add up to
      the capacity, and the problem is reported available exactly when a slot
      is free and it is active. */
  function Availability(problems: map<ObjectId, Problem>, id: ObjectId): (r: Result<AvailabilityReport, QueryError>)
    ensures r.Failure? <==> id !in problems
    ensures r.Success? ==>
      && r.value.maxTeams == problems[id].maxTeams
      && r.value.selectedCount == |problems[id].selectedBy|
      && r.value.slotsAvailable + r.value.selectedCount == r.value.maxTeams
      && r.value.slotsAvailable == SlotsAvailable(problems[id])
      && (r.value.isAvailable <==> r.value.slotsAvailable > 0 && problems[id].isActive)
  {
    if id !in problems then Failure(NotFound)
    else
      var p := problems[id];
      Success(AvailabilityReport(IsAvailable(p), p.maxTeams - |p.selectedBy|, p.maxTeams, |p.selectedBy|))
  }

  /** The persistent store as the handler mutates it. */
  class ProblemStore {
    var teams: map<ObjectId, Team>
    var problems: map<ObjectId, Problem>
    var selections: seq<Selection>

    /** The store's contents as a value. */
    function Contents(): State
      reads this
    {
      State(teams, problems, selections)
    }

    /** The store invariant holds of the current contents. */
    ghost predicate Valid()
      reads this
    {
      Invariant(Contents())
    }

    /** A store seeded with the given records and an empty ledger. */
    constructor (teams: map<ObjectId, Team>, problems: map<ObjectId, Problem>)
      ensures Contents() == State(teams, problems, [])
      ensures UniqueTeamIds(teams) && UniqueProblemIds(problems)
        && (forall tk :: tk in teams ==> Unselected(teams[tk]))
        && (forall pk :: pk in problems ==> problems[pk].selectedBy == [])
        ==> Valid()
    {
      this.teams := teams;
      this.problems := problems;
      this.selections := [];
    }

    /** The `POST /select` handler. Runs the checks in order, then writes the
        problem and the team and inserts the ledger entry; if the insert is
        refused, the transaction is aborted and the earlier writes undone. */
    method Select(actingTeamId: string, req: Request, now: Timestamp) returns (r: Result<Summary, SelectError>)
      requires UniqueTeamIds(teams)
      modifies this
      ensures Step(r, Contents()) == Transition(old(Contents()), actingTeamId, req, now)
      ensures r.Failure? ==> Contents() == old(Contents())
      ensures old(Valid()) ==> Valid()
    {
      if req.problemId == "" { return Failure(Invalid(ProblemIdField)); }
      if req.teamId == "" { return Failure(Invalid(TeamIdField)); }
      if actingTeamId != req.teamId { return Failure(Forbidden); }

      var found := FindTeam(teams, req.teamId);
      if found.None? { return Failure(ServerError); }
      var tk := found.value;
      var team := teams[tk];
      if team.selectedProblem.Some? { return Failure(AlreadySelected); }

      var pk := req.problemId;
      if pk !in problems { return Failure(ProblemNotFound); }
      var problem := problems[pk];
      if !IsAvailable(problem) { return Failure(NoLongerAvailable); }

      ghost var before := Contents();
      var teamsBefore, problemsBefore := teams, problems;

      problem := problem.(selectedBy := problem.selectedBy + [tk]);
      problems := problems[pk := problem];

      team := team.(selectedProblem := Some(pk), selectionTime := Some(now));
      teams := teams[tk := team];

      var inserted := Insert(selections, NewSelection(tk, pk, now));
      if inserted.Failure? {
        teams, problems := teamsBefore, problemsBefore;
        return Failure(SelectionExists);
      }
      selections := inserted.value;
      r := Success(Summary(problem.problemId, problem.title, now));

      assert Contents() == Commit(before, Binding(tk, pk), now);
      if Invariant(before) {
        CommitPreservesInvariant(before, Binding(tk, pk), now);
      }
    }
  }

  /** Committing a selection that passed the checks and that the ledger
      accepts keeps the store invariant. */
  lemma CommitPreservesInvariant(s: State, b: Binding, now: Timestamp)
    requires Invariant(s)
    requires b.team in s.teams && b.problem in s.problems
    requires s.teams[b.team].selectedProblem.None? && IsAvailable(s.problems[b.problem])
    requires !HasActive(s.selections, b.team)
    ensures Invariant(Commit(s, b, now))
  {
    var t, p := b.team, b.problem;
    var s' := Commit(s, b, now);
    var rec := NewSelection(t, p, now);
    assert t !in s.problems[p].selectedBy;
    // capacity and no duplicates for the chosen problem
    var sb := s.problems[p].selectedBy;
    assert s'.problems[p].selectedBy == sb + [t];
    assert NoDuplicateTeams(s'.problems[p]) by {
      forall i, j | 0 <= i < j < |sb + [t]| ensures (sb + [t])[i] != (sb + [t])[j] {
        if j == |sb| { assert (sb + [t])[i] == sb[i]; assert sb[i] in sb; }
      }
    }
    // team side: every selected team is recorded on the problem and in the ledger
    forall tk | tk in s'.teams && s'.teams[tk].selectedProblem.Some?
      ensures BindingRecorded(s', tk, s'.teams[tk].selectedProblem.value)
    {
      var q := s'.teams[tk].selectedProblem.value;
      if tk == t {
        assert s'.selections[|s.selections|] == rec;
        assert t == (sb + [t])[|sb|];
      } else {
        assert BindingRecorded(s, tk, q);
        var i :| 0 <= i < |s.selections| && s.selections[i].status == Active && s.selections[i].team == tk && s.selections[i].problem == q;
        assert s'.selections[i] == s.selections[i];
        if q == p {
          assert tk in sb;
        }
      }
    }
    // problem side: every listed team is bound to that problem
    forall pk, tk | pk in s'.problems && tk in s'.problems[pk].selectedBy
      ensures TeamBoundTo(s', tk, pk)
    {
      if pk == p && tk != t {
        assert tk in sb;
      }
    }
    // ledger side: every active entry is reflected on its team
    forall i | 0 <= i < |s'.selections| && s'.selections[i].status == Active && s'.selections[i].team in s'.teams
      ensures TeamBoundTo(s', s'.selections[i].team, s'.selections[i].problem)
    {
      if i < |s.selections| {
        assert s'.selections[i] == s.selections[i];
      }
    }
  }
}
