/** The Problem record of backend/models/Problem.js: schema, defaults, the
    `slotsAvailable` virtual and the `isAvailable` method. */
module ProblemModel {
  import opened Wrappers
  import opened Documents

  /** The `category` enum. */
  datatype Category = WebDevelopment | AiMl | MobileApp | Blockchain | IoT | Other

  /** The `difficulty` enum. */
  datatype Difficulty = Easy | Medium | Hard

  /** The string the schema stores for a category. */
  function CategoryName(c: Category): string {
    match c
    case WebDevelopment => "Web Development"
    case AiMl => "AI/ML"
    case MobileApp => "Mobile App"
    case Blockchain => "Blockchain"
    case IoT => "IoT"
    case Other => "Other"
  }

  /** The schema's enum validator for `category`: a string is accepted exactly
      when it is the name of one of the six categories. */
  function ParseCategory(s: string): (r: Option<Category>)
    ensures r.Some? ==> CategoryName(r.value) == s
    ensures forall c :: CategoryName(c) == s ==> r == Some(c)
  {
    if s == "Web Development" then Some(WebDevelopment)
    else if s == "AI/ML" then Some(AiMl)
    else if s == "Mobile App" then Some(MobileApp)
    else if s == "Blockchain" then Some(Blockchain)
    else if s == "IoT" then Some(IoT)
    else if s == "Other" then Some(Other)
    else None
  }

  /** The string the schema stores for a difficulty. */
  function DifficultyName(d: Difficulty): string {
    match d
    case Easy => "Easy"
    case Medium => "Medium"
    case Hard => "Hard"
  }

  /** The schema's enum validator for `difficulty`. */
  function ParseDifficulty(s: string): (r: Option<Difficulty>)
    ensures r.Some? ==> DifficultyName(r.value) == s
    ensures forall d :: DifficultyName(d) == s ==> r == Some(d)
  {
    if s == "Easy" then Some(Easy)
    else if s == "Medium" then Some(Medium)
    else if s == "Hard" then Some(Hard)
    else None
  }

  /** A problem statement. `selectedBy` holds the `_id`s of the teams that chose
      it, in the order they were pushed. `maxTeams` is a plain number in the
      schema, with no lower bound. The `timestamps` fields are not modelled. */
  datatype Problem = Problem(
    problemId: string,
    title: string,
    description: string,
    detailedDescription: string,
    category: Category,
    difficulty: Difficulty,
    maxTeams: int,
    selectedBy: seq<ObjectId>,
    isActive: bool,
    tags: seq<string>)

  /** The `slotsAvailable` virtual: it is positive exactly when the list is
      shorter than the capacity, and never exceeds the capacity. */
  function SlotsAvailable(p: Problem): (r: int)
    ensures r > 0 <==> |p.selectedBy| < p.maxTeams
    ensures r <= p.maxTeams
    ensures r == 0 ==> |p.selectedBy| == p.maxTeams
  {
    p.maxTeams - |p.selectedBy|
  }

  /** The `isAvailable` method: room is left and the problem is active, which
      is the same as a positive slot count on an active problem. */
  function IsAvailable(p: Problem): (b: bool)
    ensures b <==> SlotsAvailable(p) > 0 && p.isActive
    ensures !p.isActive ==> !b
  {
    |p.selectedBy| < p.maxTeams && p.isActive
  }

  /** A freshly created problem: the schema's defaults fill every field the
      creator does not give. */
  function NewProblem(problemId: string, title: string, description: string,
                      category: Category, difficulty: Difficulty): (p: Problem)
    ensures p.problemId == problemId && p.title == title && p.description == description
    ensures p.category == category && p.difficulty == difficulty
    ensures p.selectedBy == [] && SlotsAvailable(p) == 2
    ensures IsAvailable(p)
  {
    Problem(problemId, title, description, "", category, difficulty, 2, [], true, [])
  }

  /** The capacity bound the selection handler maintains: a problem holds no
      more teams than `maxTeams`. (A problem created with a `maxTeams` below
      zero has an empty list and can never receive a team.) */
  predicate WithinCapacity(p: Problem) {
    |p.selectedBy| <= p.maxTeams || p.selectedBy == []
  }

  /** `selectedBy` lists each team at most once. */
  ghost predicate NoDuplicateTeams(p: Problem) {
    forall i, j :: 0 <= i < j < |p.selectedBy| ==> p.selectedBy[i] != p.selectedBy[j]
  }

  /** The `unique` index on `problemId`. */
  ghost predicate UniqueProblemIds(problems: map<ObjectId, Problem>) {
    forall k1, k2 :: k1 in problems && k2 in problems && problems[k1].problemId == problems[k2].problemId ==> k1 == k2
  }
}
