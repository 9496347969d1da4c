/** What every summary of every report guarantees. */
module CoverageReports {
  import opened Sequences
  import opened Options
  import opened Surfaces
  import opened Attribution
  import opened Coverage
  import opened CoverageLaws
  import opened CoverageTotals

  /** The account lists evidence for exactly what is earned, and no case twice. */
  ghost predicate Documented(a: Account) {
    a.evidence.Keys == a.earned && forall id :: id in a.earned ==> a.evidence[id] != [] && Distinct(a.evidence[id])
  }

  /** Every breakdown adds up, in total, implemented and passed. */
  ghost predicate AddsUp(t: Tables, s: Summary) {
    && (forall i :: i in {"cli", "library"} ==>
          && i in s.behaviors
          && Total(Below(s.profiles.Keys, i), s.profiles, s.credit.Some?) == s.behaviors[i]
          && Total(Below(s.categories.Keys, i), s.categories, s.credit.Some?) == s.behaviors[i])
    && Total(s.behaviors.Keys, s.behaviors, s.credit.Some?).total == |t.requirements|
    && Total(s.surfaces.Keys, s.surfaces, s.credit.Some?).total == |t.surfaces|
  }

  /** Only a current report gives credit; without it every passed count is unverified. */
  ghost predicate CreditedIfCurrent(s: Summary) {
    && (s.credit.Some? <==> s.verification.Current?)
    && (s.unverified.Some? <==> s.verification.Current?)
    && (!s.verification.Current? ==> ForEachMetric(s, Unverified))
  }

  lemma {:induction false} SummaryAddsUp(t: Tables, v: Verification, credit: Option<Credit>)
    requires TablesOk(t)
    ensures AddsUp(t, Summarized(t, v, credit))
  {
    hide TablesOk, Total, Measure, Implemented, Reached;
    var s := Summarized(t, v, credit);
    forall i | i in {"cli", "library"}
      ensures i in s.behaviors
      ensures Total(Below(s.profiles.Keys, i), s.profiles, credit.Some?) == s.behaviors[i]
      ensures Total(Below(s.categories.Keys, i), s.categories, credit.Some?) == s.behaviors[i]
    {
      ProfilesAddUp(t, v, credit, i);
      CategoriesAddUp(t, v, credit, i);
    }
    RequirementsAreCountedOnce(t, v, credit);
    SurfacesAreCountedOnce(t, v, credit);
    TotalOfMeasure(t.requirements.Keys, Implemented(t), EarnedBy(credit, Obligations));
    TotalOfMeasure(t.surfaces.Keys, Reached(t), EarnedBy(credit, Interfaces));
    assert s.credit == credit;
  }

  lemma TotalOfMeasure(universe: set<Id>, implemented: set<Id>, passed: Option<set<Id>>)
    ensures Measure(universe, implemented, passed).total == |universe|
  {
  }

  lemma AccountIsDocumented(t: Tables, cliPath: string, l: Ledger, results: seq<Result>)
    requires OncePerCase(results)
    ensures Documented(AccountOf(t, cliPath, l, results))
  {
    hide Earned, Evidence, Granters, Distinct, OncePerCase;
    EvidenceIsExact(t, cliPath, l, results);
    forall id | id in Earned(t, cliPath, l, results)
      ensures Granters(t, cliPath, l, results, id) != [] && Distinct(Granters(t, cliPath, l, results, id))
    {
      EvidenceNamesNoCaseTwice(t, cliPath, l, results, id);
      EarnedIsGranted(t, cliPath, l, results, id);
      GrantersAreResults(t, cliPath, l, results, id);
      var r :| r in results && id in Granted(t, cliPath, l, r);
      assert r.key in Granters(t, cliPath, l, results, id);
    }
  }

  lemma NoneIsOrdered(t: Tables, v: Verification)
    ensures ForEachMetric(Summarized(t, v, None), Ordered) && ForEachMetric(Summarized(t, v, None), Unverified)
  {
    hide Implemented, Reached, Equivalent, ByInterface, ByKind, ByProfile, ByCategory, Categories, Measure, Ordered,
      Unverified;
    forall universe: set<Id>, implemented: set<Id>
      ensures Ordered(Measure(universe, implemented, None)) && Unverified(Measure(universe, implemented, None))
    {
      MeasureIsOrdered(universe, implemented, None);
      NotMeasured(universe, implemented);
    }
    var s := Summarized(t, v, None);
    forall k | k in s.profiles ensures s.profiles[k] == Measure(ByProfile(t, k.0, k.1), Implemented(t), None) {
      ProfileAt(t, v, None, k.0, k.1);
    }
    forall k | k in s.categories ensures s.categories[k] == Measure(ByCategory(t, k.0, k.1), Implemented(t), None) {
      CategoryAt(t, v, None, k.0, k.1);
    }
  }

  lemma NotMeasured(universe: set<Id>, implemented: set<Id>)
    ensures Unverified(Measure(universe, implemented, None))
  {
  }

  /** Credit is given exactly if the report is current; in every metric passed is at most
      implemented and that at most the total; evidence is kept for exactly what is earned, without
      repetition; and all breakdowns add up. */
  ghost predicate AccountedFor(t: Tables, v: Verification, s: Summary) {
    && s.verification == v
    && CreditedIfCurrent(s) && ForEachMetric(s, Ordered) && AddsUp(t, s)
    && (s.credit.Some? ==> var c := s.credit.value;
                           Documented(c.obligations) && Documented(c.interfaces) && Documented(c.equivalences))
  }

  /** So it is for all accepted tables and every report. */
  lemma {:induction false} EveryReportIsAccountedFor(surfaces: map<Id, Kind>, requirements: map<Id, Requirement>,
                                                     cases: set<Case>, ms: seq<Mapping>, definition: string,
                                                     stillSame: bool, report: Option<Report>)
    requires forall id :: id in requirements ==> RequirementOk(surfaces, requirements[id])
    requires forall key :: key in cases ==> CaseOk(key)
    requires AddMappings(Tables(surfaces, requirements, cases, map[], map[], map[]), ms).Some?
    ensures var t := AddMappings(Tables(surfaces, requirements, cases, map[], map[], map[]), ms).value;
            SummaryOf(t, definition, stillSame, report).Some? ==>
              AccountedFor(t, Verify(t, definition, stillSame, report),
                           SummaryOf(t, definition, stillSame, report).value)
  {
    hide AddMappings, SummaryOf, Verify, AccountedFor, RequirementOk, CaseOk;
    AcceptedTablesAreConsistent(surfaces, requirements, cases, ms);
    var t := AddMappings(Tables(surfaces, requirements, cases, map[], map[], map[]), ms).value;
    if SummaryOf(t, definition, stillSame, report).Some? {
      SummaryIsAccountedFor(t, definition, stillSame, report);
    }
  }

  lemma {:induction false} SummaryIsAccountedFor(t: Tables, definition: string, stillSame: bool, report: Option<Report>)
    requires TablesOk(t) && SummaryOf(t, definition, stillSame, report).Some?
    ensures AccountedFor(t, Verify(t, definition, stillSame, report), SummaryOf(t, definition, stillSame, report).value)
  {
    hide TablesOk, Verify, Splits, ForEachMetric, AddsUp, Earned, Evidence, Statuses, Documented, OncePerCase;
    var v := Verify(t, definition, stillSame, report);
    var s := SummaryOf(t, definition, stillSame, report).value;
    if v.Current? {
      CurrentHasOneResultPerCase(t, definition, stillSame, report);
      var cliPath, results := report.value.CliPath(), report.value.results;
      SummaryKeeps(t, v, Some(CreditOf(t, cliPath, results)));
      SummaryAddsUp(t, v, Some(CreditOf(t, cliPath, results)));
      hide Summarized;
      CreditIsSound(t, v, cliPath, results);
      AccountIsDocumented(t, cliPath, Obligations, results);
      AccountIsDocumented(t, cliPath, Interfaces, results);
      AccountIsDocumented(t, cliPath, Equivalences, results);
    } else {
      SummaryKeeps(t, v, None);
      SummaryAddsUp(t, v, None);
      hide Summarized;
      NoneIsOrdered(t, v);
    }
  }

  lemma SummaryKeeps(t: Tables, v: Verification, credit: Option<Credit>)
    ensures var s := Summarized(t, v, credit);
            s.verification == v && s.credit == credit && (s.unverified.Some? <==> credit.Some?)
  {
  }

  lemma CurrentHasOneResultPerCase(t: Tables, definition: string, stillSame: bool, report: Option<Report>)
    requires Verify(t, definition, stillSame, report).Current?
    ensures report.Some? && OncePerCase(report.value.results) && KeysIn(report.value.results) == t.cases
  {
  }

  // ---------------------------------------------------------------------------
  // The verdict, by the fields of the report

  /** One result for each case of the suite and none for another. */
  ghost predicate Covered(t: Tables, results: seq<Result>) {
    && (forall i :: 0 <= i < |results| ==> results[i].key in t.cases)
    && forall key :: key in t.cases ==> exists i :: IsOnly(results, i, key)
  }

  ghost predicate IsOnly(results: seq<Result>, i: int, key: Case) {
    0 <= i < |results| && forall j :: 0 <= j < |results| ==> (results[j].key == key <==> j == i)
  }

  lemma CoveredExactly(t: Tables, results: seq<Result>)
    ensures Covered(t, results) <==> OncePerCase(results) && KeysIn(results) == t.cases
  {
    KeysByMember(results);
    if OncePerCase(results) && KeysIn(results) == t.cases {
      forall key | key in t.cases ensures exists i :: IsOnly(results, i, key) {
        var r :| r in results && r.key == key;
        var i :| 0 <= i < |results| && results[i] == r;
        assert IsOnly(results, i, key);
      }
    }
    if Covered(t, results) {
      forall i, j | 0 <= i < j < |results| ensures results[i].key != results[j].key {
        var k :| IsOnly(results, k, results[i].key);
      }
      forall key ensures key in KeysIn(results) <==> key in t.cases {
        if key in t.cases {
          var i :| IsOnly(results, i, key);
          assert results[i] in results && results[i].key == key;
        }
        if key in KeysIn(results) {
          var r :| r in results && r.key == key;
          var i :| 0 <= i < |results| && results[i] == r;
        }
      }
    }
  }

  /** A known status, and a pass only after its clean-up. */
  predicate Concluded(r: Result) {
    if r.status == "passed" then r.cleanupComplete && !r.cleanupError
    else r.status in {"failed", "unmet-prerequisite", "unsupported", "setup-error", "not-selected"}
  }

  /** What a report lacks, in the order in which it is asked; nothing of a current report. */
  ghost predicate HasVerdict(t: Tables, definition: string, stillSame: bool, r: Report, v: Verification) {
    var versioned := r.definition.Some?;
    var same := r.definition == Some(definition) && stillSame;
    var sound :=
      && Covered(t, r.results) && (forall i :: 0 <= i < |r.results| ==> Concluded(r.results[i]))
      && Attributed(r.subject, r.results);
    match v
    case NotRun => false
    case Unversioned => !versioned
    case Stale => versioned && !same
    case Incomplete => versioned && same && !r.complete
    case Invalid => versioned && same && r.complete && !sound
    case Current => versioned && same && r.complete && sound
  }

  /** Each verdict is given exactly to the reports it is for. */
  lemma {:induction false} VerdictByFields(t: Tables, definition: string, stillSame: bool, report: Option<Report>,
                                           v: Verification)
    ensures Verify(t, definition, stillSame, report) == v <==>
              match report case None => v == NotRun case Some(r) => HasVerdict(t, definition, stillSame, r, v)
  {
    hide Attributed, Covered, OncePerCase, KeysIn;
    if report.Some? {
      CoveredExactly(t, report.value.results);
      forall r: Result ensures Concluded(r) <==> Finished(r) {
        ConcludedIsFinished(r);
      }
      hide Concluded, Finished;
    }
  }

  lemma ConcludedIsFinished(r: Result)
    ensures Concluded(r) <==> Finished(r)
  {
  }

  /** Credit is given exactly for a report on the unchanged suite that is complete, has one concluded
      result for each case and none for another, and is attributed. */
  lemma {:induction false} CreditByFields(t: Tables, definition: string, stillSame: bool, report: Option<Report>)
    requires SummaryOf(t, definition, stillSame, report).Some?
    ensures SummaryOf(t, definition, stillSame, report).value.credit.Some? <==>
              && report.Some? && report.value.definition == Some(definition) && stillSame && report.value.complete
              && Covered(t, report.value.results)
              && (forall i :: 0 <= i < |report.value.results| ==> Concluded(report.value.results[i]))
              && Attributed(report.value.subject, report.value.results)
  {
    hide Verify, Covered, Concluded, Attributed, Splits, CreditOf;
    VerdictByFields(t, definition, stillSame, report, Current);
    CreditIsKept(t, definition, stillSame, report);
  }

  lemma CreditIsKept(t: Tables, definition: string, stillSame: bool, report: Option<Report>)
    requires SummaryOf(t, definition, stillSame, report).Some?
    ensures SummaryOf(t, definition, stillSame, report).value.credit.Some? <==>
              Verify(t, definition, stillSame, report).Current?
  {
    hide Verify, Splits, CreditOf;
  }

  /** Whatever a current report earns, it earns through a passed case with sound evidence at its own
      interface, and the report names what was run, with hashes. */
  lemma {:induction false} CreditNeedsSubject(t: Tables, definition: string, stillSame: bool, report: Report,
                                              l: Ledger, id: Id)
    requires Verify(t, definition, stillSame, Some(report)).Current?
    requires id in Earned(t, report.CliPath(), l, report.results)
    ensures Selected(report.subject) && report.subject.verified
    ensures exists r ::
              && r in report.results && Passed(r) && id in Granted(t, report.CliPath(), l, r)
              && Evidenced(r.key.driver, r.evidence)
              && (r.key.driver == "library" ==> LibrarySelected(report.subject))
  {
    hide Finished, OncePerCase, KeysIn, Selected, LibrarySelected, Evidenced, Earned;
    EarnedIsGranted(t, report.CliPath(), l, report.results, id);
    var r :| r in report.results && id in Granted(t, report.CliPath(), l, r);
    assert Passed(r);
  }

  /** The summary never raises on a catalogue whose option identifiers are generated. */
  lemma {:induction false} GeneratedCatalogueNeverRaises(t: Tables, definition: string, stillSame: bool,
                                                         report: Option<Report>)
    requires TablesOk(t) && OptionsGenerated(t.surfaces)
    ensures SummaryOf(t, definition, stillSame, report).Some?
  {
    hide TablesOk, OptionsGenerated, Verify, Splits, Summarized, CreditOf;
    if Verify(t, definition, stillSame, report).Current? {
      CurrentHasOneResultPerCase(t, definition, stillSame, report);
      forall i | 0 <= i < |report.value.results| ensures Splits(t, report.value.results[i]) {
        GeneratedOptionsSplit(t, report.value.results[i]);
      }
    }
  }

  /** Reordering the results of a report changes neither whether it is summarised nor anything in
      the summary but the order in which evidence is listed. */
  lemma {:induction false} ReorderedReportHasSameSummary(t: Tables, definition: string, stillSame: bool,
                                                         report: Report, results: seq<Result>)
    requires Permuted(report.results, results)
    ensures var s, r := SummaryOf(t, definition, stillSame, Some(report)),
                        SummaryOf(t, definition, stillSame, Some(report.(results := results)));
            && (s.Some? <==> r.Some?)
            && (s.Some? ==>
                  && s.value.(credit := None) == r.value.(credit := None)
                  && (s.value.credit.Some? <==> r.value.credit.Some?)
                  && (s.value.credit.Some? ==> SameCounts(s.value.credit.value, r.value.credit.value)))
  {
    hide Permuted, Verify, Splits, Earned, Evidence, Statuses;
    var other := report.(results := results);
    SummaryIgnoresOrder(t, definition, stillSame, report, results);
    hide Summarized;
    SameSplits(t, report.results, results);
  }

  lemma SameSplits(t: Tables, a: seq<Result>, b: seq<Result>)
    requires Permuted(a, b)
    ensures (forall i :: 0 <= i < |a| ==> Splits(t, a[i])) <==> (forall i :: 0 <= i < |b| ==> Splits(t, b[i]))
  {
    hide Splits;
    PermutedMembers(a, b);
    assert (forall i :: 0 <= i < |a| ==> Splits(t, a[i])) <==> forall r :: r in a ==> Splits(t, r);
    assert (forall i :: 0 <= i < |b| ==> Splits(t, b[i])) <==> forall r :: r in b ==> Splits(t, r);
  }

  /** Of two current reports on the same run, the one with more passed cases has no lower count in
      any metric, and the same denominators. */
  lemma {:induction false} MorePassedCasesNeverLower(t: Tables, definition: string, stillSame: bool, a: Report,
                                                     b: Report)
    requires Verify(t, definition, stillSame, Some(a)).Current? && Verify(t, definition, stillSame, Some(b)).Current?
    requires a.CliPath() == b.CliPath() && Enlarged(a.results, b.results)
    requires SummaryOf(t, definition, stillSame, Some(a)).Some? && SummaryOf(t, definition, stillSame, Some(b)).Some?
    ensures NoneLower(SummaryOf(t, definition, stillSame, Some(a)).value,
                      SummaryOf(t, definition, stillSame, Some(b)).value)
  {
    hide Verify, Splits, CreditOf, Summarized, NoneLower, Enlarged;
    MorePassingNeverLowers(t, Current, a.CliPath(), a.results, b.results);
  }
}
