/** Properties of the `POST /select` transition and of the availability query:
    each error path in the handler's order, the effect of a success, the store
    invariant across any sequence of calls, and fixed sequences of atomic
    calls: three teams for a two-slot problem, one team asking for two
    problems, a repeated request, and the last free slot. */
module SelectionProperties {
  import opened Wrappers
  import opened Documents
  import opened ProblemModel
  import opened TeamModel
  import opened SelectionModel
  import opened ProblemRoutes

  /** The request passes the `notEmpty()` rules and names the caller's own team. */
  predicate WellFormedFor(actingTeamId: string, req: Request) {
    req.problemId != "" && req.teamId != "" && actingTeamId == req.teamId
  }

  /** Team `tk` is the record `findOne({ teamId })` finds. */
  ghost predicate Names(s: State, tk: ObjectId, teamId: string) {
    tk in s.teams && s.teams[tk].teamId == teamId
  }

  // ---------------------------------------------------------------------------
  // The error paths, first failing check first

  /** A missing `problemId` is reported before a missing `teamId`; both are 400
      and leave the store unchanged. */
  lemma MissingFieldRejected(s: State, actingTeamId: string, req: Request, now: Timestamp)
    requires UniqueTeamIds(s.teams)
    requires req.problemId == "" || req.teamId == ""
    ensures var step := Transition(s, actingTeamId, req, now);
      && step.result == Failure(Invalid(if req.problemId == "" then ProblemIdField else TeamIdField))
      && StatusCode(step.result.error) == 400
      && step.next == s
  {
  }

  /** A caller acting for another team gets 403 and the store is unchanged. */
  lemma IdentityMismatchForbidden(s: State, actingTeamId: string, req: Request, now: Timestamp)
    requires UniqueTeamIds(s.teams)
    requires req.problemId != "" && req.teamId != ""
    requires actingTeamId != req.teamId
    ensures var step := Transition(s, actingTeamId, req, now);
      step.result == Failure(Forbidden) && StatusCode(step.result.error) == 403 && step.next == s
  {
  }

  /** When no team has the requested `teamId`, the handler dereferences null;
      the catch block answers 500 and the store is unchanged. */
  lemma MissingTeamServerError(s: State, actingTeamId: string, req: Request, now: Timestamp)
    requires UniqueTeamIds(s.teams)
    requires WellFormedFor(actingTeamId, req)
    requires forall tk :: tk in s.teams ==> s.teams[tk].teamId != req.teamId
    ensures var step := Transition(s, actingTeamId, req, now);
      step.result == Failure(ServerError) && StatusCode(step.result.error) == 500 && step.next == s
  {
  }

  /** A team that already has a problem gets 400 and the store is unchanged.
      Whether the team is active plays no part. */
  lemma AlreadySelectedRejected(s: State, actingTeamId: string, req: Request, now: Timestamp, tk: ObjectId)
    requires UniqueTeamIds(s.teams)
    requires WellFormedFor(actingTeamId, req) && Names(s, tk, req.teamId)
    requires s.teams[tk].selectedProblem.Some?
    ensures var step := Transition(s, actingTeamId, req, now);
      step.result == Failure(AlreadySelected) && StatusCode(step.result.error) == 400 && step.next == s
  {
  }

  /** An unknown problem id gets 404 and the store is unchanged. */
  lemma UnknownProblemNotFound(s: State, actingTeamId: string, req: Request, now: Timestamp, tk: ObjectId)
    requires UniqueTeamIds(s.teams)
    requires WellFormedFor(actingTeamId, req) && Names(s, tk, req.teamId)
    requires s.teams[tk].selectedProblem.None?
    requires req.problemId !in s.problems
    ensures var step := Transition(s, actingTeamId, req, now);
      step.result == Failure(ProblemNotFound) && StatusCode(step.result.error) == 404 && step.next == s
  {
  }

  /** A problem that exists but is full or inactive gets 400, not 404, and the
      store is unchanged; an inactive problem is refused whatever its count. */
  lemma UnavailableProblemRejected(s: State, actingTeamId: string, req: Request, now: Timestamp, tk: ObjectId)
    requires UniqueTeamIds(s.teams)
    requires WellFormedFor(actingTeamId, req) && Names(s, tk, req.teamId)
    requires s.teams[tk].selectedProblem.None?
    requires req.problemId in s.problems
    requires |s.problems[req.problemId].selectedBy| >= s.problems[req.problemId].maxTeams
          || !s.problems[req.problemId].isActive
    ensures var step := Transition(s, actingTeamId, req, now);
      step.result == Failure(NoLongerAvailable) && StatusCode(step.result.error) == 400 && step.next == s
  {
  }

  /** If every check passes but the ledger already holds an active entry for
      the team, the insert's duplicate key aborts the transaction: 400 and no
      change, not even the writes made before the insert. */
  lemma DuplicateLedgerEntryRejected(s: State, actingTeamId: string, req: Request, now: Timestamp, tk: ObjectId)
    requires UniqueTeamIds(s.teams)
    requires WellFormedFor(actingTeamId, req) && Names(s, tk, req.teamId)
    requires s.teams[tk].selectedProblem.None?
    requires req.problemId in s.problems && IsAvailable(s.problems[req.problemId])
    requires HasActive(s.selections, tk)
    ensures var step := Transition(s, actingTeamId, req, now);
      step.result == Failure(SelectionExists) && StatusCode(step.result.error) == 400 && step.next == s
  {
  }

  /** In a store that keeps the invariant, the duplicate-key path never fires:
      an unselected team has no active ledger entry. */
  lemma DuplicateUnreachable(s: State, actingTeamId: string, req: Request, now: Timestamp)
    requires Invariant(s)
    ensures Transition(s, actingTeamId, req, now).result != Failure(SelectionExists)
  {
    var v := Validate(s, actingTeamId, req);
    if v.Success? {
      NoActiveWhenUnselected(s, v.value.team);
    }
  }

  // ---------------------------------------------------------------------------
  // Success

  /** When every check passes and the ledger accepts the entry, the call
      succeeds and commits exactly the three writes: the problem's list gains
      the team at its end, the team records the problem and `now`, one active
      entry (team, problem) is appended, and nothing else changes. */
  lemma SelectSucceeds(s: State, actingTeamId: string, req: Request, now: Timestamp, tk: ObjectId)
    requires UniqueTeamIds(s.teams)
    requires WellFormedFor(actingTeamId, req) && Names(s, tk, req.teamId)
    requires s.teams[tk].selectedProblem.None?
    requires req.problemId in s.problems && IsAvailable(s.problems[req.problemId])
    requires !HasActive(s.selections, tk)
    ensures var step := Transition(s, actingTeamId, req, now);
      var pk := req.problemId;
      && step.result == Success(Summary(s.problems[pk].problemId, s.problems[pk].title, now))
      && step.next.teams.Keys == s.teams.Keys && step.next.problems.Keys == s.problems.Keys
      && step.next.problems[pk].selectedBy == s.problems[pk].selectedBy + [tk]
      && step.next.problems[pk] == s.problems[pk].(selectedBy := step.next.problems[pk].selectedBy)
      && step.next.teams[tk].selectedProblem == Some(pk)
      && step.next.teams[tk].selectionTime == Some(now)
      && step.next.teams[tk] == s.teams[tk].(selectedProblem := Some(pk), selectionTime := Some(now))
      && step.next.selections == s.selections + [Selection(tk, pk, now, Active)]
      && (forall k :: k in s.teams && k != tk ==> step.next.teams[k] == s.teams[k])
      && (forall k :: k in s.problems && k != pk ==> step.next.problems[k] == s.problems[k])
  {
    assert FindTeam(s.teams, req.teamId) == Some(tk);
  }

  /** Under the invariant, a call succeeds exactly when the request is well
      formed, names the caller, the team exists and has no problem, and the
      problem exists and is available. */
  lemma SuccessIff(s: State, actingTeamId: string, req: Request, now: Timestamp)
    requires Invariant(s)
    ensures Transition(s, actingTeamId, req, now).result.Success? <==>
      && WellFormedFor(actingTeamId, req)
      && (exists tk :: Names(s, tk, req.teamId) && s.teams[tk].selectedProblem.None?)
      && req.problemId in s.problems && IsAvailable(s.problems[req.problemId])
  {
    DuplicateUnreachable(s, actingTeamId, req, now);
  }

  /** Every successful step keeps the store invariant. */
  lemma TransitionPreservesInvariant(s: State, actingTeamId: string, req: Request, now: Timestamp)
    requires Invariant(s)
    ensures Invariant(Transition(s, actingTeamId, req, now).next)
  {
    var v := Validate(s, actingTeamId, req);
    if v.Success? && !HasActive(s.selections, v.value.team) {
      CommitPreservesInvariant(s, v.value, now);
    }
  }

  /** A team that has a problem keeps that record through any call: the
      selection is final. */
  lemma SelectionIsFinal(s: State, actingTeamId: string, req: Request, now: Timestamp, tk: ObjectId)
    requires UniqueTeamIds(s.teams)
    requires tk in s.teams && s.teams[tk].selectedProblem.Some?
    ensures var next := Transition(s, actingTeamId, req, now).next;
      tk in next.teams && next.teams[tk] == s.teams[tk]
  {
  }

  /** No call removes a team from a problem's list: the old list is a prefix
      of the new one, so the count never decreases. */
  lemma SelectedByOnlyGrows(s: State, actingTeamId: string, req: Request, now: Timestamp, pk: ObjectId)
    requires UniqueTeamIds(s.teams)
    requires pk in s.problems
    ensures var next := Transition(s, actingTeamId, req, now).next;
      && pk in next.problems
      && s.problems[pk].selectedBy <= next.problems[pk].selectedBy
      && |next.problems[pk].selectedBy| <= |s.problems[pk].selectedBy| + 1
  {
  }

  /** The same request sent again after a success is refused as already
      selected and changes nothing: a retry never binds twice. */
  lemma RetryAfterSuccess(s: State, actingTeamId: string, req: Request, now: Timestamp, later: Timestamp)
    requires UniqueTeamIds(s.teams)
    requires Transition(s, actingTeamId, req, now).result.Success?
    ensures var next := Transition(s, actingTeamId, req, now).next;
      Transition(next, actingTeamId, req, later) == Step(Failure(AlreadySelected), next)
  {
    var b := Validate(s, actingTeamId, req).value;
    var next := Transition(s, actingTeamId, req, now).next;
    assert next == Commit(s, b, now);
    assert FindTeam(next.teams, req.teamId) == Some(b.team);
  }

  // ---------------------------------------------------------------------------
  // The invariant

  /** Seeded records (every team as created, unselected; every problem with an
      empty list) with unique ids form a valid store, with an empty ledger or
      with the ledger a re-seed leaves behind, whose entries name teams that
      were deleted. */
  lemma SeededStoreValid(teams: map<ObjectId, Team>, problems: map<ObjectId, Problem>, ledger: seq<Selection>)
    requires UniqueTeamIds(teams) && UniqueProblemIds(problems)
    requires forall tk :: tk in teams ==> Unselected(teams[tk])
    requires forall pk :: pk in problems ==> problems[pk].selectedBy == []
    requires AtMostOneActivePerTeam(ledger)
    requires forall i :: 0 <= i < |ledger| ==> ledger[i].team !in teams
    ensures Invariant(State(teams, problems, ledger))
  {
  }

  /** A team appears in at most one problem's list. */
  lemma TeamInAtMostOneProblem(s: State, tk: ObjectId, p1: ObjectId, p2: ObjectId)
    requires Invariant(s)
    requires p1 in s.problems && tk in s.problems[p1].selectedBy
    requires p2 in s.problems && tk in s.problems[p2].selectedBy
    ensures p1 == p2
  {
    assert TeamBoundTo(s, tk, p1) && TeamBoundTo(s, tk, p2);
  }

  /** A selected team's problem lists it and holds its one active entry. */
  lemma SelectedTeamRecorded(s: State, tk: ObjectId)
    requires Invariant(s)
    requires tk in s.teams && s.teams[tk].selectedProblem.Some?
    ensures var pk := s.teams[tk].selectedProblem.value;
      pk in s.problems && tk in s.problems[pk].selectedBy && ActiveEntry(s.selections, tk, pk)
      && s.teams[tk].selectionTime.Some?
  {
    assert BindingRecorded(s, tk, s.teams[tk].selectedProblem.value);
    assert SelectionFieldsAgree(s.teams[tk]);
  }

  // ---------------------------------------------------------------------------
  // Any sequence of calls

  /** One call: the caller's identity, the body and the clock reading. */
  datatype Call = Call(actingTeamId: string, req: Request, now: Timestamp)

  /** The store after the calls, committed one after another. */
  function Run(s: State, calls: seq<Call>): (s': State)
    requires UniqueTeamIds(s.teams)
    ensures s'.teams.Keys == s.teams.Keys && s'.problems.Keys == s.problems.Keys
    ensures UniqueTeamIds(s'.teams)
    decreases |calls|
  {
    if calls == [] then s
    else Run(Transition(s, calls[0].actingTeamId, calls[0].req, calls[0].now).next, calls[1..])
  }

  /** The answers the calls receive, in order. */
  function Results(s: State, calls: seq<Call>): (rs: seq<Result<Summary, SelectError>>)
    requires UniqueTeamIds(s.teams)
    ensures |rs| == |calls|
    decreases |calls|
  {
    if calls == [] then []
    else
      var step := Transition(s, calls[0].actingTeamId, calls[0].req, calls[0].now);
      [step.result] + Results(step.next, calls[1..])
  }

  /** Whatever the calls, the invariant holds afterwards: no problem is over
      capacity, no team is in two lists, and no team has two active entries. */
  lemma {:induction false} RunPreservesInvariant(s: State, calls: seq<Call>)
    requires Invariant(s)
    ensures Invariant(Run(s, calls))
    ensures forall pk :: pk in Run(s, calls).problems ==> WithinCapacity(Run(s, calls).problems[pk])
    ensures AtMostOneActivePerTeam(Run(s, calls).selections)
    decreases |calls|
  {
    if calls != [] {
      var c := calls[0];
      TransitionPreservesInvariant(s, c.actingTeamId, c.req, c.now);
      RunPreservesInvariant(Transition(s, c.actingTeamId, c.req, c.now).next, calls[1..]);
    }
  }

  /** Whatever the calls, a team that had a problem still has the same record. */
  lemma {:induction false} RunKeepsSelection(s: State, calls: seq<Call>, tk: ObjectId)
    requires UniqueTeamIds(s.teams)
    requires tk in s.teams && s.teams[tk].selectedProblem.Some?
    ensures tk in Run(s, calls).teams && Run(s, calls).teams[tk] == s.teams[tk]
    decreases |calls|
  {
    if calls != [] {
      var c := calls[0];
      SelectionIsFinal(s, c.actingTeamId, c.req, c.now, tk);
      RunKeepsSelection(Transition(s, c.actingTeamId, c.req, c.now).next, calls[1..], tk);
    }
  }

  // ---------------------------------------------------------------------------
  // Scenarios

  /** Three distinct unselected teams select a fresh problem of capacity two,
      one after another: the first two succeed, the third is told the problem
      is no longer available, and the list ends with the first two teams. */
  lemma ThreeTeamsTwoSlots(s: State, pk: ObjectId, t1: ObjectId, t2: ObjectId, t3: ObjectId,
                           now1: Timestamp, now2: Timestamp, now3: Timestamp)
    requires Invariant(s)
    requires pk in s.problems && pk != ""
    requires s.problems[pk].maxTeams == 2 && s.problems[pk].selectedBy == [] && s.problems[pk].isActive
    requires t1 in s.teams && t2 in s.teams && t3 in s.teams
    requires t1 != t2 && t2 != t3 && t1 != t3
    requires Unselected(s.teams[t1]) && Unselected(s.teams[t2]) && Unselected(s.teams[t3])
    requires s.teams[t1].teamId != "" && s.teams[t2].teamId != "" && s.teams[t3].teamId != ""
    ensures var id1, id2, id3 := s.teams[t1].teamId, s.teams[t2].teamId, s.teams[t3].teamId;
      var calls := [Call(id1, Request(pk, id1), now1), Call(id2, Request(pk, id2), now2), Call(id3, Request(pk, id3), now3)];
      && Results(s, calls)[0].Success? && Results(s, calls)[1].Success?
      && Results(s, calls)[2] == Failure(NoLongerAvailable)
      && Run(s, calls).problems[pk].selectedBy == [t1, t2]
  {
    NoActiveWhenUnselected(s, t1);
    NoActiveWhenUnselected(s, t2);
    ThreeCallsOnTwoSlots(s, pk, t1, t2, t3, now1, now2, now3);
  }

  /** The three calls of ThreeTeamsTwoSlots, from the facts they depend on. */
  lemma ThreeCallsOnTwoSlots(s: State, pk: ObjectId, t1: ObjectId, t2: ObjectId, t3: ObjectId,
                             now1: Timestamp, now2: Timestamp, now3: Timestamp)
    requires UniqueTeamIds(s.teams)
    requires pk in s.problems && pk != ""
    requires s.problems[pk].maxTeams == 2 && s.problems[pk].selectedBy == [] && s.problems[pk].isActive
    requires t1 in s.teams && t2 in s.teams && t3 in s.teams
    requires t1 != t2 && t2 != t3 && t1 != t3
    requires Unselected(s.teams[t1]) && Unselected(s.teams[t2]) && Unselected(s.teams[t3])
    requires s.teams[t1].teamId != "" && s.teams[t2].teamId != "" && s.teams[t3].teamId != ""
    requires !HasActive(s.selections, t1) && !HasActive(s.selections, t2)
    ensures var id1, id2, id3 := s.teams[t1].teamId, s.teams[t2].teamId, s.teams[t3].teamId;
      var calls := [Call(id1, Request(pk, id1), now1), Call(id2, Request(pk, id2), now2), Call(id3, Request(pk, id3), now3)];
      && Results(s, calls)[0].Success? && Results(s, calls)[1].Success?
      && Results(s, calls)[2] == Failure(NoLongerAvailable)
      && Run(s, calls).problems[pk].selectedBy == [t1, t2]
  {
    var id1, id2, id3 := s.teams[t1].teamId, s.teams[t2].teamId, s.teams[t3].teamId;
    var c1, c2, c3 := Call(id1, Request(pk, id1), now1), Call(id2, Request(pk, id2), now2), Call(id3, Request(pk, id3), now3);

    SelectSucceeds(s, id1, c1.req, now1, t1);
    var step1 := Transition(s, id1, c1.req, now1);
    var s1 := step1.next;
    HasActiveAppend(s.selections, Selection(t1, pk, now1, Active), t2);

    SelectSucceeds(s1, id2, c2.req, now2, t2);
    var step2 := Transition(s1, id2, c2.req, now2);
    var s2 := step2.next;
    assert s2.problems[pk].selectedBy == [t1, t2];
    assert s2.teams[t3] == s.teams[t3];

    UnavailableProblemRejected(s2, id3, c3.req, now3, t3);
    var step3 := Transition(s2, id3, c3.req, now3);

    RunThree(s, c1, c2, c3);
  }

  /** How `Run` and `Results` unfold on three calls. */
  lemma RunThree(s: State, c1: Call, c2: Call, c3: Call)
    requires UniqueTeamIds(s.teams)
    ensures var step1 := Transition(s, c1.actingTeamId, c1.req, c1.now);
      var step2 := Transition(step1.next, c2.actingTeamId, c2.req, c2.now);
      var step3 := Transition(step2.next, c3.actingTeamId, c3.req, c3.now);
      && Results(s, [c1, c2, c3]) == [step1.result, step2.result, step3.result]
      && Run(s, [c1, c2, c3]) == step3.next
  {
    var s1 := Transition(s, c1.actingTeamId, c1.req, c1.now).next;
    var s2 := Transition(s1, c2.actingTeamId, c2.req, c2.now).next;
    assert [c1, c2, c3][1..] == [c2, c3] && [c2, c3][1..] == [c3] && [c3][1..] == [];
    RunCons(s, [c1, c2, c3]);
    RunCons(s1, [c2, c3]);
    RunCons(s2, [c3]);
  }

  /** Appending an entry for another team does not give `team` an active entry. */
  lemma HasActiveAppend(ledger: seq<Selection>, rec: Selection, team: ObjectId)
    requires !HasActive(ledger, team) && rec.team != team
    ensures !HasActive(ledger + [rec], team)
  {
    forall i | 0 <= i < |ledger + [rec]| && (ledger + [rec])[i].status == Active
      ensures (ledger + [rec])[i].team != team
    {
      if i < |ledger| { assert (ledger + [rec])[i] == ledger[i]; }
    }
  }

  /** One call followed by the rest: how `Run` and `Results` unfold. */
  lemma RunCons(s: State, calls: seq<Call>)
    requires UniqueTeamIds(s.teams) && calls != []
    ensures var step := Transition(s, calls[0].actingTeamId, calls[0].req, calls[0].now);
      && Run(s, calls) == Run(step.next, calls[1..])
      && Results(s, calls) == [step.result] + Results(step.next, calls[1..])
  {
  }

  /** An unselected team has no active ledger entry in a valid store. */
  lemma NoActiveWhenUnselected(s: State, tk: ObjectId)
    requires Invariant(s)
    requires tk in s.teams && s.teams[tk].selectedProblem.None?
    ensures !HasActive(s.selections, tk)
  {
    forall i | 0 <= i < |s.selections| && s.selections[i].status == Active
      ensures s.selections[i].team != tk
    {
      if s.selections[i].team in s.teams {
        assert TeamBoundTo(s, s.selections[i].team, s.selections[i].problem);
      }
    }
  }

  /** One team sends two requests for two different available problems: the
      first succeeds, the second is refused as already selected, and the team
      ends bound to the first problem. */
  lemma OneTeamTwoProblems(s: State, tk: ObjectId, p1: ObjectId, p2: ObjectId, now1: Timestamp, now2: Timestamp)
    requires Invariant(s)
    requires tk in s.teams && s.teams[tk].teamId != "" && Unselected(s.teams[tk])
    requires p1 != p2 && p1 != "" && p2 != ""
    requires p1 in s.problems && IsAvailable(s.problems[p1])
    requires p2 in s.problems && IsAvailable(s.problems[p2])
    ensures var id := s.teams[tk].teamId;
      var calls := [Call(id, Request(p1, id), now1), Call(id, Request(p2, id), now2)];
      && Results(s, calls)[0].Success?
      && Results(s, calls)[1] == Failure(AlreadySelected)
      && Run(s, calls).teams[tk].selectedProblem == Some(p1)
  {
    var id := s.teams[tk].teamId;
    var calls := [Call(id, Request(p1, id), now1), Call(id, Request(p2, id), now2)];
    NoActiveWhenUnselected(s, tk);
    SelectSucceeds(s, id, Request(p1, id), now1, tk);
    var s1 := Transition(s, id, Request(p1, id), now1).next;
    AlreadySelectedRejected(s1, id, Request(p2, id), now2, tk);
    assert calls[1..] == [calls[1]] && [calls[1]][1..] == [];
    RunCons(s, calls);
    RunCons(s1, [calls[1]]);
  }

  /** A success that takes the last free slot leaves the availability query
      reporting no free slot and not available. */
  lemma LastSlotReportsFull(s: State, actingTeamId: string, req: Request, now: Timestamp)
    requires UniqueTeamIds(s.teams)
    requires req.problemId in s.problems && SlotsAvailable(s.problems[req.problemId]) == 1
    requires Transition(s, actingTeamId, req, now).result.Success?
    ensures var r := Availability(Transition(s, actingTeamId, req, now).next.problems, req.problemId);
      r.Success? && r.value.slotsAvailable == 0 && !r.value.isAvailable
      && r.value.selectedCount == r.value.maxTeams
  {
  }
}
