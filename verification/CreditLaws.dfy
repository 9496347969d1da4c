/** What is credited and counted, by the fields of the tables and the text of the recorded commands. */
module CreditLaws {
  import opened Options
  import opened Text
  import opened Surfaces
  import opened OptionInvocation
  import opened Attribution
  import opened Coverage
  import opened CoverageLaws

  // ---------------------------------------------------------------------------
  // Recorded commands

  predicate LooksLikeOption(a: string) { a != "--" && a != "" && a[0] == '-' }

  /** The argument is the option, alone or with a value. */
  ghost predicate IsGiven(a: string, option: string) {
    a == option || exists value: string :: a == option + "=" + value
  }

  /** The command line calls the program with the command and options only before the option. */
  ghost predicate GivesFirst(line: seq<string>, cli: string, command: string, option: string) {
    && |line| >= 2 && line[0] == cli && line[1] == command
    && exists k :: 2 <= k < |line| && IsGiven(line[k], option) && forall j :: 2 <= j <= k ==> LooksLikeOption(line[j])
  }

  /** The record is of the command line interface: it is such a line, or it ends with one that is recorded
      as the inner command of another program. */
  ghost predicate GivesOption(r: Record, cli: string, command: string, option: string) {
    && r.interface == "cli" && r.argv != []
    && if r.argv[0] == cli then GivesFirst(r.argv, cli, command, option)
       else GivesFirst(r.cliArgv, cli, command, option) && exists front: seq<string> :: r.argv == front + r.cliArgv
  }

  lemma GivenByText(a: string, option: string)
    ensures IsGiven(a, option) <==> Gives(a, option)
  {
    var start := option + "=";
    if StartsWith(a, start) {
      assert a == option + "=" + a[|start|..];
    }
    if value: string :| a == option + "=" + value {
      assert a[..|start|] == start;
    }
  }

  lemma OptionByText(a: string)
    ensures LooksLikeOption(a) <==> IsOption(a)
  {
    if a != "" {
      assert a[..1] == [a[0]];
    }
  }

  lemma {:induction false} LeadingByText(args: seq<string>, option: string)
    ensures Leading(args, option) <==>
              exists k ::
                0 <= k < |args| && IsGiven(args[k], option) && forall j :: 0 <= j <= k ==> LooksLikeOption(args[j])
  {
    hide LooksLikeOption, IsOption, IsGiven, Gives;
    if args != [] {
      LeadingByText(args[1..], option);
      GivenByText(args[0], option);
      OptionByText(args[0]);
      if Leading(args[1..], option) && IsOption(args[0]) {
        var k :| 0 <= k < |args[1..]| && IsGiven(args[1..][k], option)
                 && forall j :: 0 <= j <= k ==> LooksLikeOption(args[1..][j]);
        assert args[k + 1] == args[1..][k];
        assert forall j :: 1 <= j <= k + 1 ==> args[j] == args[1..][j - 1];
      }
      if k :| 0 <= k < |args| && IsGiven(args[k], option) && forall j :: 0 <= j <= k ==> LooksLikeOption(args[j]) {
        assert LooksLikeOption(args[0]);
        if k > 0 {
          assert args[1..][k - 1] == args[k];
          assert forall j :: 0 <= j <= k - 1 ==> args[1..][j] == args[j + 1];
        }
      }
    }
  }

  lemma LineByText(line: seq<string>, cli: string, command: string, option: string)
    requires |line| >= 2 && line[0] == cli
    ensures GivesFirst(line, cli, command, option) <==> line[1] == command && Leading(line[2..], option)
  {
    LeadingByText(line[2..], option);
    hide LooksLikeOption, IsGiven, Leading;
    var args := line[2..];
    assert forall j :: 2 <= j < |line| ==> line[j] == args[j - 2];
    if k :| 0 <= k < |args| && IsGiven(args[k], option) && forall j :: 0 <= j <= k ==> LooksLikeOption(args[j]) {
      assert line[k + 2] == args[k];
    }
  }

  lemma {:induction false} InvokedByText(r: Record, cli: string, command: string, option: string)
    ensures Invoked(r, cli, command, option) <==> GivesOption(r, cli, command, option)
  {
    hide Leading;
    if r.interface == "cli" && r.argv != [] {
      var line := if r.argv[0] == cli then r.argv else r.cliArgv;
      if |line| >= 2 && line[0] == cli {
        LineByText(line, cli, command, option);
      }
      hide GivesFirst;
      if r.argv[0] != cli && |r.cliArgv| >= 2 {
        if r.cliArgv[0] == cli && Tail(r.argv, |r.cliArgv|) == r.cliArgv {
          assert r.argv == r.argv[..|r.argv| - |r.cliArgv|] + r.cliArgv;
        }
        if front: seq<string> :| r.argv == front + r.cliArgv {
          assert r.argv[|r.argv| - |r.cliArgv|..] == r.cliArgv;
        }
      }
      GivesSomething(r.cliArgv, cli, command, option);
      GivesSomething(r.argv, cli, command, option);
    }
  }

  lemma GivesSomething(line: seq<string>, cli: string, command: string, option: string)
    ensures GivesFirst(line, cli, command, option) ==> |line| >= 2 && line[0] == cli
  {
  }

  // ---------------------------------------------------------------------------
  // What a result earns

  /** A command of the library client called the function, or saw the signal, of this name. */
  ghost predicate Traced(r: Result, id: Id, prefix: string, signal: bool) {
    exists c: Command, name: string ::
      && c in r.evidence && c.record.interface == "library"
      && name in (if signal then c.record.signals else c.record.apiCalls) && id == prefix + name
  }

  lemma TracedInTrace(r: Result, id: Id, prefix: string, signal: bool)
    ensures Traced(r, id, prefix, signal) <==> InTrace(r, signal, prefix, id)
  {
    if Traced(r, id, prefix, signal) {
      var c: Command, name: string :|
        && c in r.evidence && c.record.interface == "library"
        && name in (if signal then c.record.signals else c.record.apiCalls) && id == prefix + name;
      var i :| 0 <= i < |r.evidence| && r.evidence[i] == c;
      assert name in TraceOf(r.evidence[i].record, signal);
    }
    if InTrace(r, signal, prefix, id) {
      var i :| 0 <= i < |r.evidence| && r.evidence[i].record.interface == "library"
               && exists name :: name in TraceOf(r.evidence[i].record, signal) && prefix + name == id;
      var name :| name in TraceOf(r.evidence[i].record, signal) && prefix + name == id;
      assert r.evidence[i] in r.evidence;
    }
  }

  /** The case asserts the interface, by itself or through a requirement it covers. */
  ghost predicate AssertedBy(t: Tables, key: Case, id: Id) {
    || (key in t.assertions && id in t.assertions[key])
    || (key in t.mapping && exists q :: q in t.mapping[key] && q in t.requirements && id in t.requirements[q].surfaces)
  }

  lemma AssertedIsAsserted(t: Tables, key: Case, id: Id)
    ensures AssertedBy(t, key, id) <==> id in Asserted(t, key)
  {
  }

  /** What a passed result earns: the requirements of its case; the interfaces that the case asserts, if
      a library function or signal also shows in a trace; the options checked that a command gives. */
  ghost predicate Earns(t: Tables, cliPath: string, l: Ledger, r: Result, id: Id) {
    r.status == "passed" &&
    match l
    case Obligations => r.key in t.mapping && id in t.mapping[r.key]
    case Interfaces =>
      && AssertedBy(t, r.key, id) && id in t.surfaces
      && (t.surfaces[id] == LibraryFunction ==> Traced(r, id, "library.function.", false))
      && (t.surfaces[id] == LibrarySignal ==> Traced(r, id, "library.signal.", true))
    case Equivalences =>
      && r.key in t.equivalents && id in t.equivalents[r.key]
      && exists c: Command, command: string, option: string ::
           c in r.evidence && IsSplit(id, command, option) && GivesOption(c.record, cliPath, command, option)
  }

  /** The identifier, without its prefix if it has it, split at the first dot. */
  ghost predicate IsSplit(id: Id, command: string, option: string) {
    '.' !in command && (id == "cli.option." + command + "." + option
                        || (!StartsWith(id, "cli.option.") && id == command + "." + option))
  }

  lemma {:induction false} DotByText(s: string, a: string, b: string)
    ensures SplitDot(s) == Some((a, b)) <==> '.' !in a && s == a + "." + b
  {
    if '.' !in a && s == a + "." + b {
      SplitAtFirstDot(a, b);
    }
    if SplitDot(s) == Some((a, b)) {
      SplitDotRebuilds(s);
    }
  }

  lemma {:induction false} SplitDotRebuilds(s: string)
    requires SplitDot(s).Some?
    ensures var (a, b) := SplitDot(s).value; '.' !in a && s == a + "." + b
  {
    if s[0] == '.' {
      assert s == "" + "." + s[1..];
    } else {
      SplitDotRebuilds(s[1..]);
      var (a, b) := SplitDot(s[1..]).value;
      assert s == [s[0]] + s[1..] == ([s[0]] + a) + "." + b;
    }
  }

  lemma PrefixStarts(prefix: string, rest: string)
    ensures StartsWith(prefix + rest, prefix)
  {
  }

  lemma SplitByText(id: Id, command: string, option: string)
    ensures SplitId(id) == Some((command, option)) <==> IsSplit(id, command, option)
  {
    var prefix := "cli.option.";
    var rest := if StartsWith(id, prefix) then id[|prefix|..] else id;
    DotByText(rest, command, option);
    hide SplitDot;
    if StartsWith(id, prefix) {
      assert id == prefix + rest;
      assert prefix + (command + "." + option) == prefix + command + "." + option;
      if id == "cli.option." + command + "." + option {
        assert id == prefix + (command + "." + option);
        assert rest == command + "." + option;
      }
    } else {
      PrefixStarts(prefix, command + "." + option);
      assert prefix + (command + "." + option) == "cli.option." + command + "." + option;
    }
  }

  lemma ExercisedByText(r: Result, cliPath: string, id: Id)
    ensures Exercised(r, cliPath, id) <==>
              exists c: Command, command: string, option: string ::
                c in r.evidence && IsSplit(id, command, option) && GivesOption(c.record, cliPath, command, option)
  {
    forall command: string, option: string
      ensures SplitId(id) == Some((command, option)) <==> IsSplit(id, command, option)
    {
      SplitByText(id, command, option);
    }
    forall c: Record, command: string, option: string
      ensures Invoked(c, cliPath, command, option) <==> GivesOption(c, cliPath, command, option)
    {
      InvokedByText(c, cliPath, command, option);
    }
    hide SplitId, IsSplit, Invoked, GivesOption;
    if Exercised(r, cliPath, id) {
      var (command, option) := SplitId(id).value;
      var i :| 0 <= i < |r.evidence| && Invoked(r.evidence[i].record, cliPath, command, option);
      assert r.evidence[i] in r.evidence;
      assert IsSplit(id, command, option) && GivesOption(r.evidence[i].record, cliPath, command, option);
    }
    if c: Command, command: string, option: string :|
        c in r.evidence && IsSplit(id, command, option) && GivesOption(c.record, cliPath, command, option) {
      var i :| 0 <= i < |r.evidence| && r.evidence[i] == c;
      assert Invoked(r.evidence[i].record, cliPath, command, option);
    }
  }

  lemma {:induction false} EarnsIfGranted(t: Tables, cliPath: string, l: Ledger, r: Result, id: Id)
    ensures id in Granted(t, cliPath, l, r) <==> Earns(t, cliPath, l, r, id)
  {
    match l
    case Obligations =>
    case Interfaces =>
      AssertedIsAsserted(t, r.key, id);
      TracedInTrace(r, id, "library.function.", false);
      TracedInTrace(r, id, "library.signal.", true);
      hide Asserted, AssertedBy, Traced, InTrace;
    case Equivalences =>
      ExercisedByText(r, cliPath, id);
      hide GivesOption, IsSplit, Exercised;
  }

  /** An identifier is earned exactly if some result of the report earns it. */
  lemma {:induction false} EarnedByFields(t: Tables, cliPath: string, l: Ledger, results: seq<Result>, id: Id)
    ensures id in Earned(t, cliPath, l, results) <==> exists r :: r in results && Earns(t, cliPath, l, r, id)
  {
    EarnedIsGranted(t, cliPath, l, results, id);
    forall r: Result ensures id in Granted(t, cliPath, l, r) <==> Earns(t, cliPath, l, r, id) {
      EarnsIfGranted(t, cliPath, l, r, id);
    }
    hide Earns, Granted, Earned;
  }

  /** Whether the identifier has a dot behind its prefix. */
  ghost predicate CanSplit(id: Id) { exists command: string, option: string :: IsSplit(id, command, option) }

  /** The summary raises exactly for a current report with a passed case whose equivalence checks hold an
      identifier that cannot be split. */
  lemma {:induction false} RaisesByFields(t: Tables, definition: string, stillSame: bool, report: Option<Report>)
    ensures SummaryOf(t, definition, stillSame, report).None? <==>
              && Verify(t, definition, stillSame, report).Current?
              && exists r, id :: r in report.value.results && r.status == "passed"
                                 && r.key in t.equivalents && id in t.equivalents[r.key] && !CanSplit(id)
  {
    forall id ensures CanSplit(id) <==> SplitId(id).Some? {
      SplitSomehow(id);
    }
    hide CanSplit, SplitId, Verify, Summarized, CreditOf;
    if Verify(t, definition, stillSame, report).Current? {
      CurrentHasReport(t, definition, stillSame, report);
      var results := report.value.results;
      if r, id :| r in results && r.status == "passed"
                  && r.key in t.equivalents && id in t.equivalents[r.key] && !CanSplit(id) {
        var i :| 0 <= i < |results| && results[i] == r;
        assert !Splits(t, results[i]);
      }
      if i :| 0 <= i < |results| && !Splits(t, results[i]) {
        assert results[i] in results;
      }
    }
  }

  lemma CurrentHasReport(t: Tables, definition: string, stillSame: bool, report: Option<Report>)
    requires Verify(t, definition, stillSame, report).Current?
    ensures report.Some?
  {
  }

  lemma SplitSomehow(id: Id)
    ensures CanSplit(id) <==> SplitId(id).Some?
  {
    hide IsSplit, SplitId;
    if SplitId(id).Some? {
      var (command, option) := SplitId(id).value;
      SplitByText(id, command, option);
    }
    if command: string, option: string :| IsSplit(id, command, option) {
      SplitByText(id, command, option);
    }
  }

  // ---------------------------------------------------------------------------
  // The counts of the summary

  function Times(results: seq<Result>, status: string): nat {
    if results == [] then 0 else (if results[0].status == status then 1 else 0) + Times(results[1..], status)
  }

  /** The statuses are counted as they occur. */
  lemma {:induction false} StatusesAreCounted(results: seq<Result>, status: string)
    ensures Statuses(results)[status] == Times(results, status)
  {
    if results != [] {
      var n := |results| - 1;
      StatusesAreCounted(results[..n], status);
      TimesOfLast(results[..n], results[n], status);
      assert results == results[..n] + [results[n]];
    }
  }

  lemma {:induction false} TimesOfLast(results: seq<Result>, r: Result, status: string)
    ensures Times(results + [r], status) == Times(results, status) + (if r.status == status then 1 else 0)
  {
    if results == [] {
      assert results + [r] == [r] && [r][1..] == [];
    } else {
      TimesOfLast(results[1..], r, status);
      assert (results + [r])[1..] == results[1..] + [r];
    }
  }

  /** Some mapping lists the requirement. */
  ghost predicate IsDone(t: Tables, id: Id) { exists key :: key in t.mapping && id in t.mapping[key] }

  /** Some mapping asserts the interface, by itself or through a requirement. */
  ghost predicate IsReached(t: Tables, id: Id) {
    || (exists key :: key in t.assertions && id in t.assertions[key])
    || (exists q :: q in t.requirements && IsDone(t, q) && id in t.requirements[q].surfaces)
  }

  ghost predicate IsChecked(t: Tables, id: Id) { exists key :: key in t.equivalents && id in t.equivalents[key] }

  /** The metric counts a set of identifiers: all, those planned, and those passed if that is known. */
  ghost predicate Counts(m: Metric, all: set<Id>, planned: set<Id>, known: bool, passed: set<Id>) {
    && m.total == |all|
    && m.implemented == |set id | id in all && id in planned|
    && (m.passed.Some? <==> known) && (known ==> m.passed == Some(|set id | id in all && id in passed|))
  }

  lemma MeasureCounts(all: set<Id>, planned: set<Id>, passed: Option<set<Id>>)
    ensures Counts(Measure(all, planned, passed), all, planned, passed.Some?,
                   match passed case None => {} case Some(p) => p)
  {
    assert (set id | id in all && id in planned) == all * planned;
    if passed.Some? {
      assert (set id | id in all && id in passed.value) == all * passed.value;
    }
  }

  lemma PlannedByTables(t: Tables)
    ensures forall id :: id in Implemented(t) <==> IsDone(t, id)
    ensures forall id :: id in Reached(t) <==> IsReached(t, id)
    ensures forall id :: id in Equivalent(t) <==> IsChecked(t, id)
  {
    forall id ensures id in Reached(t) <==> IsReached(t, id) {
      assert forall q :: q in Implemented(t) <==> IsDone(t, q);
    }
  }

  /** What was earned, if the summary gives credit. */
  function EarnedIn(s: Summary, l: Ledger): set<Id> {
    match s.credit
    case None => {}
    case Some(c) =>
      match l
      case Obligations => c.obligations.earned
      case Interfaces => c.interfaces.earned
      case Equivalences => c.equivalences.earned
  }

  /** The requirements of an interface. */
  ghost predicate CountsBehaviors(t: Tables, s: Summary, done: set<Id>) {
    && s.behaviors.Keys == {"cli", "library"}
    && forall i :: i in s.behaviors ==>
         Counts(s.behaviors[i], (set id | id in t.requirements && t.requirements[id].interface == i),
                done, s.credit.Some?, EarnedIn(s, Obligations))
  }

  /** The interfaces of a kind. */
  ghost predicate CountsSurfaces(t: Tables, s: Summary, reached: set<Id>) {
    forall k: Kind ::
      && k in s.surfaces
      && Counts(s.surfaces[k], (set id | id in t.surfaces && t.surfaces[id] == k),
                reached, s.credit.Some?, EarnedIn(s, Interfaces))
  }

  /** The options, by their checks and by any credit. */
  ghost predicate CountsOptions(t: Tables, s: Summary, reached: set<Id>, checked: set<Id>) {
    var options := set id | id in t.surfaces && t.surfaces[id] == CliOption;
    && Counts(s.equivalenceChecks, options, checked, s.credit.Some?, EarnedIn(s, Equivalences))
    && Counts(s.accounted, options, reached + checked, s.credit.Some?,
              EarnedIn(s, Interfaces) + EarnedIn(s, Equivalences))
  }

  /** The requirements of an interface with a profile. */
  ghost predicate CountsProfiles(t: Tables, s: Summary, done: set<Id>) {
    && (forall i, p :: (i, p) in s.profiles <==> i in {"cli", "library"} && p in {"user", "system", "any"})
    && forall i, p :: (i, p) in s.profiles ==>
         Counts(s.profiles[(i, p)],
                (set id | id in t.requirements && t.requirements[id].interface == i && t.requirements[id].profile == p),
                done, s.credit.Some?, EarnedIn(s, Obligations))
  }

  /** The requirements of an interface in a category that occurs. */
  ghost predicate CountsCategories(t: Tables, s: Summary, done: set<Id>) {
    && (forall i, c :: (i, c) in s.categories <==> i in {"cli", "library"} && c in Categories(t, i))
    && forall i, c :: (i, c) in s.categories ==>
         Counts(s.categories[(i, c)],
                (set id | id in t.requirements && t.requirements[id].interface == i
                          && t.requirements[id].category == c),
                done, s.credit.Some?, EarnedIn(s, Obligations))
  }

  ghost function AllDone(t: Tables): set<Id> { set id | id in t.requirements && IsDone(t, id) }

  ghost function AllReached(t: Tables): set<Id> { set id | id in t.surfaces && IsReached(t, id) }

  ghost function AllChecked(t: Tables): set<Id> { set id | id in t.surfaces && IsChecked(t, id) }

  /** Every metric counts the entries it is named for. */
  ghost predicate CountsEntries(t: Tables, s: Summary) {
    && CountsBehaviors(t, s, AllDone(t)) && CountsSurfaces(t, s, AllReached(t))
    && CountsOptions(t, s, AllReached(t), AllChecked(t))
    && CountsProfiles(t, s, AllDone(t)) && CountsCategories(t, s, AllDone(t))
    && s.unimplemented == t.requirements.Keys - AllDone(t)
    && s.unverified == if s.credit.Some? then Some(t.requirements.Keys - EarnedIn(s, Obligations)) else None
  }

  /** Only what is planned among all matters to a count. */
  lemma SamePlanned(m: Metric, all: set<Id>, a: set<Id>, b: set<Id>, known: bool, passed: set<Id>)
    requires Counts(m, all, a, known, passed) && forall id :: id in all ==> (id in a <==> id in b)
    ensures Counts(m, all, b, known, passed)
  {
    assert (set id | id in all && id in a) == (set id | id in all && id in b);
  }

  lemma MeasureIsCount(t: Tables, all: set<Id>, planned: set<Id>, other: set<Id>, passed: Option<set<Id>>)
    requires forall id :: id in all ==> (id in planned <==> id in other)
    ensures Counts(Measure(all, planned, passed), all, other, passed.Some?,
                   match passed case None => {} case Some(p) => p)
  {
    MeasureCounts(all, planned, passed);
    hide Measure;
    SamePlanned(Measure(all, planned, passed), all, planned, other, passed.Some?,
                match passed case None => {} case Some(p) => p);
  }

  lemma BehaviorsAreCounted(t: Tables, v: Verification, credit: Option<Credit>, done: set<Id>)
    requires forall id :: id in t.requirements ==> (id in Implemented(t) <==> id in done)
    ensures CountsBehaviors(t, Summarized(t, v, credit), done)
  {
    var s := Summarized(t, v, credit);
    hide Measure, Implemented, Reached, Equivalent, Counts;
    forall i | i in s.behaviors
      ensures Counts(s.behaviors[i], (set id | id in t.requirements && t.requirements[id].interface == i),
                     done, credit.Some?, EarnedIn(s, Obligations))
    {
      MeasureIsCount(t, ByInterface(t, i), Implemented(t), done, EarnedBy(credit, Obligations));
    }
  }

  lemma EveryKind(k: Kind)
    ensures k in {CliCommand, CliOption, LibraryFunction, LibrarySignal}
  {
    match k case CliCommand => case CliOption => case LibraryFunction => case LibrarySignal =>
  }

  lemma SurfacesAreCounted(t: Tables, v: Verification, credit: Option<Credit>, reached: set<Id>)
    requires forall id :: id in t.surfaces ==> (id in Reached(t) <==> id in reached)
    ensures CountsSurfaces(t, Summarized(t, v, credit), reached)
  {
    var s := Summarized(t, v, credit);
    hide Measure, Implemented, Reached, Equivalent, Counts;
    forall k: Kind
      ensures k in s.surfaces
      ensures Counts(s.surfaces[k], (set id | id in t.surfaces && t.surfaces[id] == k),
                     reached, credit.Some?, EarnedIn(s, Interfaces))
    {
      EveryKind(k);
      MeasureIsCount(t, ByKind(t, k), Reached(t), reached, EarnedBy(credit, Interfaces));
    }
  }

  lemma OptionsAreCounted(t: Tables, v: Verification, credit: Option<Credit>, reached: set<Id>, checked: set<Id>)
    requires forall id :: id in t.surfaces ==> (id in Reached(t) <==> id in reached)
    requires forall id :: id in t.surfaces ==> (id in Equivalent(t) <==> id in checked)
    ensures CountsOptions(t, Summarized(t, v, credit), reached, checked)
  {
    var s := Summarized(t, v, credit);
    hide Measure, Implemented, Reached, Equivalent, Counts;
    var options := set id | id in t.surfaces && t.surfaces[id] == CliOption;
    assert ByKind(t, CliOption) == options;
    MeasureIsCount(t, options, Equivalent(t), checked, EarnedBy(credit, Equivalences));
    var both := if credit.Some? then Some(EarnedIn(s, Interfaces) + EarnedIn(s, Equivalences)) else None;
    MeasureIsCount(t, options, Reached(t) + Equivalent(t), reached + checked, both);
    assert s.equivalenceChecks == Measure(options, Equivalent(t), EarnedBy(credit, Equivalences));
    assert s.accounted == Measure(options, Reached(t) + Equivalent(t), both);
    assert credit.None? ==> EarnedIn(s, Interfaces) + EarnedIn(s, Equivalences) == {};
  }

  lemma ProfilesAreCounted(t: Tables, v: Verification, credit: Option<Credit>, done: set<Id>)
    requires forall id :: id in t.requirements ==> (id in Implemented(t) <==> id in done)
    ensures CountsProfiles(t, Summarized(t, v, credit), done)
  {
    var s := Summarized(t, v, credit);
    hide Measure, Implemented, Reached, Equivalent, Counts, Categories, ByCategory, ByInterface, ByKind;
    forall i, p | (i, p) in s.profiles
      ensures Counts(s.profiles[(i, p)],
                     (set id | id in t.requirements && t.requirements[id].interface == i
                               && t.requirements[id].profile == p),
                     done, credit.Some?, EarnedIn(s, Obligations))
    {
      MeasureIsCount(t, ByProfile(t, i, p), Implemented(t), done, EarnedBy(credit, Obligations));
    }
  }

  lemma CategoriesAreCounted(t: Tables, v: Verification, credit: Option<Credit>, done: set<Id>)
    requires forall id :: id in t.requirements ==> (id in Implemented(t) <==> id in done)
    ensures CountsCategories(t, Summarized(t, v, credit), done)
  {
    var s := Summarized(t, v, credit);
    hide Measure, Implemented, Reached, Equivalent, Counts, Categories, ByProfile, ByInterface, ByKind;
    forall i, c | (i, c) in s.categories
      ensures Counts(s.categories[(i, c)],
                     (set id | id in t.requirements && t.requirements[id].interface == i
                               && t.requirements[id].category == c),
                     done, credit.Some?, EarnedIn(s, Obligations))
    {
      MeasureIsCount(t, ByCategory(t, i, c), Implemented(t), done, EarnedBy(credit, Obligations));
    }
  }

  lemma PlansByTables(t: Tables)
    ensures forall id :: id in t.requirements ==> (id in Implemented(t) <==> id in AllDone(t))
    ensures forall id :: id in t.surfaces ==> (id in Reached(t) <==> id in AllReached(t))
    ensures forall id :: id in t.surfaces ==> (id in Equivalent(t) <==> id in AllChecked(t))
  {
    PlannedByTables(t);
    hide IsDone, IsReached, IsChecked, Implemented, Reached, Equivalent;
  }

  lemma {:induction false} SummaryCountsEntries(t: Tables, v: Verification, credit: Option<Credit>)
    ensures CountsEntries(t, Summarized(t, v, credit))
  {
    hide AllDone, AllReached, AllChecked, Implemented, Reached, Equivalent, CountsBehaviors, CountsSurfaces,
      CountsOptions, CountsProfiles, CountsCategories, Summarized;
    PlansByTables(t);
    BehaviorsAreCounted(t, v, credit, AllDone(t));
    SurfacesAreCounted(t, v, credit, AllReached(t));
    OptionsAreCounted(t, v, credit, AllReached(t), AllChecked(t));
    ProfilesAreCounted(t, v, credit, AllDone(t));
    CategoriesAreCounted(t, v, credit, AllDone(t));
    RestIsListed(t, v, credit, AllDone(t));
  }

  lemma RestIsListed(t: Tables, v: Verification, credit: Option<Credit>, done: set<Id>)
    requires forall id :: id in t.requirements ==> (id in Implemented(t) <==> id in done)
    ensures var s := Summarized(t, v, credit);
            && s.unimplemented == t.requirements.Keys - done
            && s.unverified == if s.credit.Some? then Some(t.requirements.Keys - EarnedIn(s, Obligations)) else None
  {
    hide Measure, Implemented, Reached, Equivalent, Categories, ByProfile, ByInterface, ByKind, ByCategory;
  }

  /** A category occurs exactly if a requirement of the interface has it. */
  lemma CategoriesOccur(t: Tables, interface: string, category: string)
    ensures category in Categories(t, interface) <==>
              exists id :: id in t.requirements && t.requirements[id].interface == interface
                           && t.requirements[id].category == category
  {
  }

  /** The metrics of every summary count what they are named for, and its credit is what the results of
      the report earn. */
  lemma {:induction false} SummaryByFields(t: Tables, definition: string, stillSame: bool, report: Option<Report>)
    requires SummaryOf(t, definition, stillSame, report).Some?
    ensures CountsEntries(t, SummaryOf(t, definition, stillSame, report).value)
    ensures var s := SummaryOf(t, definition, stillSame, report).value;
            s.credit.Some? ==> report.Some? && forall id ::
              && (id in EarnedIn(s, Obligations) <==>
                    exists r :: r in report.value.results && Earns(t, report.value.CliPath(), Obligations, r, id))
              && (id in EarnedIn(s, Interfaces) <==>
                    exists r :: r in report.value.results && Earns(t, report.value.CliPath(), Interfaces, r, id))
              && (id in EarnedIn(s, Equivalences) <==>
                    exists r :: r in report.value.results && Earns(t, report.value.CliPath(), Equivalences, r, id))
  {
    var v := Verify(t, definition, stillSame, report);
    hide Verify, Splits, CountsEntries, Earns, Earned, Evidence, Statuses;
    SummaryCountsEntries(t, v, None);
    if v.Current? {
      CurrentHasReport(t, definition, stillSame, report);
      var credit := CreditOf(t, report.value.CliPath(), report.value.results);
      SummaryCountsEntries(t, v, Some(credit));
      CreditStays(t, v, credit);
      forall l, id
        ensures id in Earned(t, report.value.CliPath(), l, report.value.results) <==>
                  exists r :: r in report.value.results && Earns(t, report.value.CliPath(), l, r, id)
      {
        EarnedByFields(t, report.value.CliPath(), l, report.value.results, id);
      }
      hide Summarized;
    } else {
      NoCreditStays(t, v);
      hide Summarized;
    }
  }

  lemma CreditStays(t: Tables, v: Verification, credit: Credit)
    ensures Summarized(t, v, Some(credit)).credit == Some(credit)
  {
  }

  lemma NoCreditStays(t: Tables, v: Verification)
    ensures Summarized(t, v, None).credit == None
  {
  }
}
