/** The Selection ledger of backend/models/Selection.js and its partial
    unique index on `team` among active records. */
module SelectionModel {
  import opened Wrappers
  import opened Documents

  /** The `status` enum. */
  datatype Status = Active | Cancelled

  /** The string the schema stores for a status. */
  function StatusName(s: Status): string {
    match s
    case Active => "active"
    case Cancelled => "cancelled"
  }

  /** The schema's enum validator for `status`. */
  function ParseStatus(s: string): (r: Option<Status>)
    ensures r.Some? ==> StatusName(r.value) == s
    ensures forall st :: StatusName(st) == s ==> r == Some(st)
  {
    if s == "active" then Some(Active)
    else if s == "cancelled" then Some(Cancelled)
    else None
  }

  /** One ledger entry. Both references are required by the schema, so both
      are always present. */
  datatype Selection = Selection(team: ObjectId, problem: ObjectId, selectionTime: Timestamp, status: Status)

  /** `new Selection({ team, problem, selectionTime })`: status takes its default. */
  function NewSelection(team: ObjectId, problem: ObjectId, time: Timestamp): (rec: Selection)
    ensures rec.team == team && rec.problem == problem && rec.selectionTime == time
    ensures rec.status == Active
  {
    Selection(team, problem, time, Active)
  }

  /** The ledger holds an active entry for `team`. */
  predicate HasActive(ledger: seq<Selection>, team: ObjectId) {
    exists i :: 0 <= i < |ledger| && ledger[i].status == Active && ledger[i].team == team
  }

  /** The ledger holds an active entry binding `team` to `problem`. */
  ghost predicate ActiveEntry(ledger: seq<Selection>, team: ObjectId, problem: ObjectId) {
    exists i :: 0 <= i < |ledger| && ledger[i].status == Active && ledger[i].team == team && ledger[i].problem == problem
  }

  /** What the partial unique index guarantees: no two active entries share a team. */
  ghost predicate AtMostOneActivePerTeam(ledger: seq<Selection>) {
    forall i, j :: 0 <= i < j < |ledger| && ledger[i].status == Active && ledger[j].status == Active
      ==> ledger[i].team != ledger[j].team
  }

  /** The duplicate-key error (code 11000) the store raises on an index violation. */
  datatype DuplicateKey = DuplicateKey

  /** `selection.save()`: the store refuses an active entry for a team that
      already has one, and accepts every other entry, cancelled ones without
      limit. An accepted entry is appended. */
  function Insert(ledger: seq<Selection>, rec: Selection): (r: Result<seq<Selection>, DuplicateKey>)
    ensures r.Failure? <==> rec.status == Active && HasActive(ledger, rec.team)
    ensures r.Success? ==> r.value == ledger + [rec]
    ensures r.Success? && AtMostOneActivePerTeam(ledger) ==> AtMostOneActivePerTeam(r.value)
  {
    if rec.status == Active && HasActive(ledger, rec.team) then Failure(DuplicateKey)
    else Success(ledger + [rec])
  }
}
