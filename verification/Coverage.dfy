/** Coverage accounting: tables and a run report become credited sets, evidence and metrics. */
module Coverage {
  import opened Sequences
  import opened Options
  import opened Surfaces
  import opened OptionInvocation
  import opened Attribution

  type Id = string

  datatype Requirement = Requirement(interface: string, profile: string, category: string, surfaces: seq<Id>)

  datatype Case = Case(behavior: string, driver: string, profile: string)

  /** One coverage mapping; assertions and equivalences carry their rationale. */
  datatype Mapping = Mapping(key: Case, rationale: string, requirements: seq<Id>,
                             assertions: seq<(Id, string)>, equivalents: seq<(Id, string)>)

  datatype Tables = Tables(surfaces: map<Id, Kind>, requirements: map<Id, Requirement>, cases: set<Case>,
                           mapping: map<Case, set<Id>>, assertions: map<Case, set<Id>>, equivalents: map<Case, set<Id>>)

  function Get(m: map<Case, set<Id>>, key: Case): set<Id> { if key in m then m[key] else {} }

  // ---------------------------------------------------------------------------
  // Validation

  predicate InInterface(kind: Kind, interface: string) {
    if kind.CliCommand? || kind.CliOption? then interface == "cli" else interface == "library"
  }

  predicate RequirementOk(surfaces: map<Id, Kind>, r: Requirement) {
    && (r.interface == "cli" || r.interface == "library")
    && (r.profile == "user" || r.profile == "system" || r.profile == "any")
    && r.surfaces != []
    && forall i :: 0 <= i < |r.surfaces| ==>
         r.surfaces[i] in surfaces && InInterface(surfaces[r.surfaces[i]], r.interface)
  }

  predicate CaseOk(key: Case) {
    (key.driver == "cli" || key.driver == "library")
    && (key.profile == "user" || key.profile == "system" || key.profile == "any")
  }

  /** The requirement can be covered by the case. */
  predicate Covers(t: Tables, key: Case, id: Id) {
    && id in t.requirements
    && t.requirements[id].interface == key.driver
    && (t.requirements[id].profile == "any" || t.requirements[id].profile == key.profile)
  }

  predicate Assertable(t: Tables, key: Case, id: Id) {
    id in t.surfaces && (if key.driver == "cli" then t.surfaces[id].CliOption?
                         else t.surfaces[id].LibraryFunction? || t.surfaces[id].LibrarySignal?)
  }

  function SurfacesOf(t: Tables, ids: set<Id>): set<Id> {
    set id, s | id in ids && id in t.requirements && s in t.requirements[id].surfaces :: s
  }

  predicate UniqueKeys(pairs: seq<(Id, string)>) { forall i, j :: 0 <= i < j < |pairs| ==> pairs[i].0 != pairs[j].0 }

  function IdsOf(ids: seq<Id>): set<Id> { set i | 0 <= i < |ids| :: ids[i] }

  function KeysOf(pairs: seq<(Id, string)>): set<Id> { set i | 0 <= i < |pairs| :: pairs[i].0 }

  predicate AssertionsOk(t: Tables, m: Mapping) {
    && UniqueKeys(m.assertions)
    && forall i :: 0 <= i < |m.assertions| ==> Assertable(t, m.key, m.assertions[i].0) && m.assertions[i].1 != ""
  }

  /** Interfaces with behavioral credit from this case. */
  function Behavioral(t: Tables, m: Mapping): set<Id> {
    KeysOf(m.assertions) + SurfacesOf(t, IdsOf(m.requirements))
  }

  predicate EquivalentOk(t: Tables, m: Mapping, pair: (Id, string)) {
    && m.key.driver == "cli" && pair.0 in t.surfaces && t.surfaces[pair.0].CliOption?
    && Text.Strip(pair.1) != "" && pair.0 !in Behavioral(t, m)
  }

  predicate MappingOk(t: Tables, m: Mapping) {
    && m.key in t.cases && m.key !in t.mapping && m.rationale != ""
    && Distinct(m.requirements) && (forall i :: 0 <= i < |m.requirements| ==> Covers(t, m.key, m.requirements[i]))
    && AssertionsOk(t, m)
    && UniqueKeys(m.equivalents) && (forall i :: 0 <= i < |m.equivalents| ==> EquivalentOk(t, m, m.equivalents[i]))
  }

  function AddMapping(t: Tables, m: Mapping): Tables {
    t.(mapping := t.mapping[m.key := IdsOf(m.requirements)],
       assertions := t.assertions[m.key := KeysOf(m.assertions)],
       equivalents := t.equivalents[m.key := KeysOf(m.equivalents)])
  }

  function AddMappings(t: Tables, ms: seq<Mapping>): Option<Tables> {
    if ms == [] then Some(t)
    else match AddMappings(t, ms[..|ms| - 1])
         case None => None
         case Some(u) => if MappingOk(u, ms[|ms| - 1]) then Some(AddMapping(u, ms[|ms| - 1])) else None
  }

  /** The option may be checked for equivalence by the case, which gives it no other credit. */
  predicate Checkable(t: Tables, key: Case, id: Id)
    requires key in t.assertions && key in t.mapping
  {
    && key.driver == "cli" && id in t.surfaces && t.surfaces[id].CliOption?
    && id !in t.assertions[key] && id !in SurfacesOf(t, t.mapping[key])
  }

  /** What the validated tables guarantee. */
  ghost predicate TablesOk(t: Tables) {
    && (forall id :: id in t.requirements ==> RequirementOk(t.surfaces, t.requirements[id]))
    && (forall key :: key in t.cases ==> CaseOk(key))
    && t.mapping.Keys == t.assertions.Keys == t.equivalents.Keys <= t.cases
    && (forall key, id :: key in t.mapping && id in t.mapping[key] ==> Covers(t, key, id))
    && (forall key, id :: key in t.assertions && id in t.assertions[key] ==> Assertable(t, key, id))
    && (forall key, id :: key in t.equivalents && id in t.equivalents[key] ==> Checkable(t, key, id))
  }

  // ---------------------------------------------------------------------------
  // Reports

  datatype Result = Result(key: Case, status: string, cleanupError: bool, cleanupComplete: bool, evidence: seq<Command>)

  datatype Report = Report(definition: Option<string>, complete: bool, results: seq<Result>, subject: Subject) {
    function CliPath(): string { subject.selected.cli.path }
  }

  datatype Verification = NotRun | Unversioned | Stale | Incomplete | Invalid | Current

  const STATUSES := {"passed", "failed", "unmet-prerequisite", "unsupported", "setup-error", "not-selected"}

  function KeysIn(results: seq<Result>): set<Case> { set i | 0 <= i < |results| :: results[i].key }

  predicate OncePerCase(results: seq<Result>) {
    forall i, j :: 0 <= i < j < |results| ==> results[i].key != results[j].key
  }

  predicate Finished(r: Result) {
    r.status in STATUSES && (r.status == "passed" ==> !r.cleanupError && r.cleanupComplete)
  }

  predicate Passed(r: Result) { r.status == "passed" }

  /** Passed results need a subject and evidence; without any nothing is asked. */
  predicate Attributed(s: Subject, results: seq<Result>) {
    (exists r :: r in results && Passed(r)) ==>
      && Selected(s) && s.verified
      && ((exists r :: r in results && Passed(r) && r.key.driver == "library") ==> LibrarySelected(s))
      && forall r :: r in results && Passed(r) ==> Evidenced(r.key.driver, r.evidence)
  }

  /** `definition` is that of the suite, `stillSame` that it has not changed since. */
  function Verify(t: Tables, definition: string, stillSame: bool, report: Option<Report>): Verification {
    match report
    case None => NotRun
    case Some(r) =>
      if r.definition.None? then Unversioned
      else if r.definition.value != definition || !stillSame then Stale
      else if !r.complete then Incomplete
      else if !OncePerCase(r.results) || KeysIn(r.results) != t.cases then Invalid
      else if exists i :: 0 <= i < |r.results| && !Finished(r.results[i]) then Invalid
      else if !Attributed(r.subject, r.results) then Invalid
      else Current
  }

  // ---------------------------------------------------------------------------
  // Credit

  /** The three accounts: requirements, interfaces and option equivalences. */
  datatype Ledger = Obligations | Interfaces | Equivalences

  function TraceOf(r: Record, signals: bool): seq<string> { if signals then r.signals else r.apiCalls }

  /** The name is in the call or signal trace of a command of the library client. */
  predicate InTrace(r: Result, signals: bool, prefix: string, id: Id) {
    exists i :: 0 <= i < |r.evidence| && r.evidence[i].record.interface == "library" &&
      exists name :: name in TraceOf(r.evidence[i].record, signals) && prefix + name == id
  }

  /** A library function or signal counts only if the library trace shows it. */
  predicate Observed(t: Tables, r: Result, id: Id) {
    && id in t.surfaces
    && (t.surfaces[id].LibraryFunction? ==> InTrace(r, false, "library.function.", id))
    && (t.surfaces[id].LibrarySignal? ==> InTrace(r, true, "library.signal.", id))
  }

  function Asserted(t: Tables, key: Case): set<Id> {
    Get(t.assertions, key) + SurfacesOf(t, Get(t.mapping, key))
  }

  predicate Exercised(r: Result, cliPath: string, id: Id) {
    match SplitId(id)
    case None => false
    case Some((command, option)) =>
      exists i :: 0 <= i < |r.evidence| && Invoked(r.evidence[i].record, cliPath, command, option)
  }

  /** What one result earns; only a passed result earns anything. */
  function Granted(t: Tables, cliPath: string, l: Ledger, r: Result): set<Id> {
    if r.status != "passed" then {}
    else match l
         case Obligations => Get(t.mapping, r.key)
         case Interfaces => set id | id in Asserted(t, r.key) && Observed(t, r, id)
         case Equivalences => set id | id in Get(t.equivalents, r.key) && Exercised(r, cliPath, id)
  }

  function Earned(t: Tables, cliPath: string, l: Ledger, results: seq<Result>): set<Id> {
    if results == [] then {}
    else Earned(t, cliPath, l, results[..|results| - 1]) + Granted(t, cliPath, l, results[|results| - 1])
  }

  function AddEvidence(m: map<Id, seq<Case>>, ids: set<Id>, key: Case): map<Id, seq<Case>> {
    map id | id in m.Keys + ids :: (if id in m then m[id] else []) + (if id in ids then [key] else [])
  }

  function Evidence(t: Tables, cliPath: string, l: Ledger, results: seq<Result>): map<Id, seq<Case>> {
    if results == [] then map[]
    else
      var last := results[|results| - 1];
      AddEvidence(Evidence(t, cliPath, l, results[..|results| - 1]), Granted(t, cliPath, l, last), last.key)
  }

  function Statuses(results: seq<Result>): multiset<string> {
    if results == [] then multiset{}
    else Statuses(results[..|results| - 1]) + multiset{results[|results| - 1].status}
  }

  /** An equivalence identifier that does not split is an error once its case has passed. */
  predicate Splits(t: Tables, r: Result) {
    r.status == "passed" ==> forall id :: id in Get(t.equivalents, r.key) ==> SplitId(id).Some?
  }

  datatype Account = Account(earned: set<Id>, evidence: map<Id, seq<Case>>)

  datatype Credit = Credit(obligations: Account, interfaces: Account, equivalences: Account, statuses: multiset<string>)

  function AccountOf(t: Tables, cliPath: string, l: Ledger, results: seq<Result>): Account {
    Account(Earned(t, cliPath, l, results), Evidence(t, cliPath, l, results))
  }

  function CreditOf(t: Tables, cliPath: string, results: seq<Result>): Credit {
    Credit(AccountOf(t, cliPath, Obligations, results), AccountOf(t, cliPath, Interfaces, results),
           AccountOf(t, cliPath, Equivalences, results), Statuses(results))
  }

  // ---------------------------------------------------------------------------
  // Metrics

  datatype Metric = Metric(total: nat, implemented: nat, passed: Option<nat>)

  function Measure(universe: set<Id>, implemented: set<Id>, passed: Option<set<Id>>): Metric {
    Metric(|universe|, |universe * implemented|,
           match passed case None => None case Some(p) => Some(|universe * p|))
  }

  function Implemented(t: Tables): set<Id> { set key, id | key in t.mapping && id in t.mapping[key] :: id }

  function Reached(t: Tables): set<Id> {
    SurfacesOf(t, Implemented(t)) + (set key, id | key in t.assertions && id in t.assertions[key] :: id)
  }

  function Equivalent(t: Tables): set<Id> { set key, id | key in t.equivalents && id in t.equivalents[key] :: id }

  function ByInterface(t: Tables, interface: string): set<Id> {
    set id | id in t.requirements && t.requirements[id].interface == interface
  }

  function ByProfile(t: Tables, interface: string, profile: string): set<Id> {
    set id | id in t.requirements && t.requirements[id].interface == interface && t.requirements[id].profile == profile
  }

  function ByCategory(t: Tables, interface: string, category: string): set<Id> {
    set id | id in t.requirements
             && t.requirements[id].interface == interface && t.requirements[id].category == category
  }

  function ByKind(t: Tables, kind: Kind): set<Id> { set id | id in t.surfaces && t.surfaces[id] == kind }

  function Categories(t: Tables, interface: string): set<string> {
    set id | id in t.requirements && t.requirements[id].interface == interface :: t.requirements[id].category
  }

  datatype Summary = Summary(
    verification: Verification,
    behaviors: map<string, Metric>, surfaces: map<Kind, Metric>,
    profiles: map<(string, string), Metric>, categories: map<(string, string), Metric>,
    equivalenceChecks: Metric, accounted: Metric,
    credit: Option<Credit>, unimplemented: set<Id>, unverified: Option<set<Id>>)

  /** The option identifiers of the catalogue are those its generator builds. */
  ghost predicate OptionsGenerated(surfaces: map<Id, Kind>) {
    forall id :: id in surfaces && surfaces[id].CliOption? ==>
      exists command, name :: IsGeneratedId(id, command, name)
  }

  ghost predicate IsGeneratedId(id: Id, command: string, name: string) {
    id == OptionId(command, name) && (command == "global" || exists value :: StringLiteral(value) == Some(command))
  }

  function EarnedBy(credit: Option<Credit>, l: Ledger): Option<set<Id>> {
    match credit
    case None => None
    case Some(c) => Some(match l case Obligations => c.obligations.earned case Interfaces => c.interfaces.earned
                                 case Equivalences => c.equivalences.earned)
  }

  function Summarized(t: Tables, v: Verification, credit: Option<Credit>): Summary {
    var passed := EarnedBy(credit, Obligations);
    var interfaces := EarnedBy(credit, Interfaces);
    var equivalences := EarnedBy(credit, Equivalences);
    Summary(v,
      map i | i in {"cli", "library"} :: Measure(ByInterface(t, i), Implemented(t), passed),
      map k | k in {CliCommand, CliOption, LibraryFunction, LibrarySignal} ::
        Measure(ByKind(t, k), Reached(t), interfaces),
      map i, p | i in {"cli", "library"} && p in {"user", "system", "any"} ::
        (i, p) := Measure(ByProfile(t, i, p), Implemented(t), passed),
      map i, c | i in {"cli", "library"} && c in Categories(t, i) ::
        (i, c) := Measure(ByCategory(t, i, c), Implemented(t), passed),
      Measure(ByKind(t, CliOption), Equivalent(t), equivalences),
      Measure(ByKind(t, CliOption), Reached(t) + Equivalent(t),
        match interfaces
        case None => None
        case Some(s) => Some(s + (match equivalences case None => {} case Some(e) => e))),
      credit, t.requirements.Keys - Implemented(t),
      match passed case None => None case Some(p) => Some(t.requirements.Keys - p))
  }

  /** The summary of a report; nothing if an equivalence identifier of a passed case does not split. */
  function SummaryOf(t: Tables, definition: string, stillSame: bool, report: Option<Report>): Option<Summary> {
    var v := Verify(t, definition, stillSame, report);
    if !v.Current? then Some(Summarized(t, v, None))
    else if forall i :: 0 <= i < |report.value.results| ==> Splits(t, report.value.results[i]) then
      Some(Summarized(t, v, Some(CreditOf(t, report.value.CliPath(), report.value.results))))
    else None
  }
}
