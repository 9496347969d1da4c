/** The accounting loops: tables are filled mapping by mapping, credit result by result. */
module CoverageModel {
  import opened Sequences
  import opened Options
  import opened Surfaces
  import opened OptionInvocation
  import opened Attribution
  import opened Coverage
  import opened CoverageLaws

  lemma {:induction false} AddMappingsPrefixFails(t: Tables, ms: seq<Mapping>, k: nat)
    requires k <= |ms| && AddMappings(t, ms[..k]).None?
    ensures AddMappings(t, ms).None?
    decreases |ms|
  {
    hide MappingOk, AddMapping;
    if k < |ms| {
      assert ms[..|ms| - 1][..k] == ms[..k];
      AddMappingsPrefixFails(t, ms[..|ms| - 1], k);
    } else {
      assert ms[..k] == ms;
    }
  }

  /** Whether a passed result lacks attribution or command evidence. */
  method SubjectProblem(s: Subject, results: seq<Result>) returns (problem: bool)
    ensures problem <==> !Attributed(s, results)
  {
    hide Selected, LibrarySelected, Evidenced;
    var passing: seq<Result> := [];
    for i := 0 to |results|
      invariant forall r :: r in passing <==> r in results[..i] && Passed(r)
    {
      assert results[..i + 1] == results[..i] + [results[i]];
      if Passed(results[i]) {
        passing := passing + [results[i]];
      }
    }
    assert results[..|results|] == results;
    if passing == [] {
      return false;
    }
    assert passing[0] in results;
    if !Selected(s) {
      return true;
    }
    if (exists i :: 0 <= i < |passing| && passing[i].key.driver == "library") && !LibrarySelected(s) {
      return true;
    }
    if !s.verified {
      return true;
    }
    for i := 0 to |passing|
      invariant forall j :: 0 <= j < i ==> Evidenced(passing[j].key.driver, passing[j].evidence)
    {
      var sound := SoundEvidence(passing[i]);
      if !sound {
        assert passing[i] in passing;
        return true;
      }
    }
    return false;
  }

  method SoundEvidence(r: Result) returns (sound: bool)
    ensures sound <==> Evidenced(r.key.driver, r.evidence)
  {
    hide CommandOk;
    if r.evidence == [] {
      return false;
    }
    for i := 0 to |r.evidence|
      invariant forall j :: 0 <= j < i ==> CommandOk(r.evidence[j])
    {
      if !CommandOk(r.evidence[i]) {
        return false;
      }
    }
    return exists i :: 0 <= i < |r.evidence| && r.evidence[i].record.interface == r.key.driver;
  }

  class CoverageModel {
    const surfaces: map<Id, Kind>
    const requirements: map<Id, Requirement>
    const cases: set<Case>
    var mapping: map<Case, set<Id>>
    var assertions: map<Case, set<Id>>
    var equivalents: map<Case, set<Id>>

    constructor (surfaces: map<Id, Kind>, requirements: map<Id, Requirement>, cases: set<Case>)
      ensures View() == Tables(surfaces, requirements, cases, map[], map[], map[])
    {
      this.surfaces, this.requirements, this.cases := surfaces, requirements, cases;
      mapping, assertions, equivalents := map[], map[], map[];
    }

    function View(): Tables
      reads this
    {
      Tables(surfaces, requirements, cases, mapping, assertions, equivalents)
    }

    /** The explicit assertions of one mapping, checked one by one. */
    method CollectAssertions(m: Mapping) returns (r: Option<set<Id>>)
      ensures r.Some? <==> AssertionsOk(View(), m)
      ensures r.Some? ==> r.value == KeysOf(m.assertions)
    {
      hide Assertable;
      var found: set<Id> := {};
      for i := 0 to |m.assertions|
        invariant found == KeysOf(m.assertions[..i])
        invariant forall j, k :: 0 <= j < k < i ==> m.assertions[j].0 != m.assertions[k].0
        invariant forall j :: 0 <= j < i ==> Assertable(View(), m.key, m.assertions[j].0) && m.assertions[j].1 != ""
      {
        var id := m.assertions[i].0;
        if !Assertable(View(), m.key, id) || m.assertions[i].1 == "" || id in found {
          return None;
        }
        found := found + {id};
      }
      assert m.assertions[..|m.assertions|] == m.assertions;
      return Some(found);
    }

    /** The equivalence checks of one mapping; none may have behavioral credit. */
    method CollectEquivalents(m: Mapping) returns (r: Option<set<Id>>)
      ensures r.Some? <==>
                && UniqueKeys(m.equivalents)
                && forall i :: 0 <= i < |m.equivalents| ==> EquivalentOk(View(), m, m.equivalents[i])
      ensures r.Some? ==> r.value == KeysOf(m.equivalents)
    {
      hide EquivalentOk;
      var found: set<Id> := {};
      for i := 0 to |m.equivalents|
        invariant found == KeysOf(m.equivalents[..i])
        invariant forall j, k :: 0 <= j < k < i ==> m.equivalents[j].0 != m.equivalents[k].0
        invariant forall j :: 0 <= j < i ==> EquivalentOk(View(), m, m.equivalents[j])
      {
        if !EquivalentOk(View(), m, m.equivalents[i]) || m.equivalents[i].0 in found {
          return None;
        }
        found := found + {m.equivalents[i].0};
      }
      assert m.equivalents[..|m.equivalents|] == m.equivalents;
      return Some(found);
    }

    method Map(m: Mapping) returns (ok: bool)
      modifies this
      ensures ok <==> MappingOk(old(View()), m)
      ensures View() == if ok then AddMapping(old(View()), m) else old(View())
    {
      hide AssertionsOk, EquivalentOk, KeysOf, Distinct, UniqueKeys;
      if m.key !in cases || m.key in mapping || m.rationale == "" || !Distinct(m.requirements) {
        return false;
      }
      var ids: set<Id> := {};
      for i := 0 to |m.requirements|
        invariant ids == IdsOf(m.requirements[..i]) && View() == old(View())
        invariant forall j :: 0 <= j < i ==> Covers(View(), m.key, m.requirements[j])
      {
        if !Covers(View(), m.key, m.requirements[i]) {
          return false;
        }
        ids := ids + {m.requirements[i]};
      }
      assert m.requirements[..|m.requirements|] == m.requirements;
      var found := CollectAssertions(m);
      var equivalent := CollectEquivalents(m);
      if found.None? || equivalent.None? {
        return false;
      }
      mapping := mapping[m.key := ids];
      assertions := assertions[m.key := found.value];
      equivalents := equivalents[m.key := equivalent.value];
      return true;
    }

    /** All mappings in order; the first invalid one raises. */
    method MapAll(ms: seq<Mapping>) returns (ok: bool)
      modifies this
      ensures ok <==> AddMappings(old(View()), ms).Some?
      ensures ok ==> View() == AddMappings(old(View()), ms).value
    {
      hide MappingOk, AddMapping;
      for i := 0 to |ms|
        invariant AddMappings(old(View()), ms[..i]) == Some(View())
      {
        assert ms[..i + 1][..i] == ms[..i];
        ok := Map(ms[i]);
        if !ok {
          AddMappingsPrefixFails(old(View()), ms, i + 1);
          return;
        }
      }
      assert ms[..|ms|] == ms;
      ok := true;
    }

    // -------------------------------------------------------------------------
    // Summaries

    /** Adds the case to the evidence of each identifier. */
    method Record(account: Account, ids: set<Id>, key: Case) returns (r: Account)
      ensures r == Account(account.earned + ids, AddEvidence(account.evidence, ids, key))
    {
      var earned, evidence := account.earned, account.evidence;
      var rest := ids;
      ghost var done: set<Id> := {};
      NoEvidenceAdded(account.evidence, key);
      while rest != {}
        invariant done !! rest && done + rest == ids
        invariant earned == account.earned + done && evidence == AddEvidence(account.evidence, done, key)
        decreases rest
      {
        var id :| id in rest;
        earned := earned + {id};
        evidence := evidence[id := (if id in evidence then evidence[id] else []) + [key]];
        rest, done := rest - {id}, done + {id};
      }
      assert done == ids;
      r := Account(earned, evidence);
    }

    /** The equivalences a passed case exercises; raises if an identifier does not split. */
    method Exercise(r: Result, cliPath: string) returns (ids: Option<set<Id>>)
      requires r.status == "passed"
      ensures ids.Some? <==> Splits(View(), r)
      ensures ids.Some? ==> ids.value == Granted(View(), cliPath, Equivalences, r)
    {
      hide SplitId, Exercised;
      var rest := Get(equivalents, r.key);
      var found: set<Id> := {};
      ghost var done: set<Id> := {};
      while rest != {}
        invariant done !! rest && done + rest == Get(equivalents, r.key)
        invariant found == set id | id in done && Exercised(r, cliPath, id)
        invariant forall id :: id in done ==> SplitId(id).Some?
        decreases rest
      {
        var id :| id in rest;
        if SplitId(id).None? {
          return None;
        }
        var hit := AnyInvoked(r, cliPath, id);
        if hit {
          found := found + {id};
        }
        rest, done := rest - {id}, done + {id};
      }
      assert done == Get(equivalents, r.key);
      return Some(found);
    }

    method AnyInvoked(r: Result, cliPath: string, id: Id) returns (hit: bool)
      requires SplitId(id).Some?
      ensures hit <==> Exercised(r, cliPath, id)
    {
      hide Invoked, SplitId;
      var (command, option) := SplitId(id).value;
      for i := 0 to |r.evidence|
        invariant forall j :: 0 <= j < i ==> !Invoked(r.evidence[j].record, cliPath, command, option)
      {
        hit := InvokedOption(r.evidence[i].record, cliPath, command, option);
        if hit {
          return;
        }
      }
      return false;
    }

    /** Credit for the results of a current report, in order. */
    method Credit(results: seq<Result>, cliPath: string) returns (credit: Option<Credit>)
      ensures credit.Some? <==> forall i :: 0 <= i < |results| ==> Splits(View(), results[i])
      ensures credit.Some? ==> credit.value == CreditOf(View(), cliPath, results)
    {
      hide Splits, Granted, AddEvidence;
      var obligations, interfaces, equivalences := Account({}, map[]), Account({}, map[]), Account({}, map[]);
      var statuses: multiset<string> := multiset{};
      for i := 0 to |results|
        invariant forall j :: 0 <= j < i ==> Splits(View(), results[j])
        invariant Coverage.Credit.Credit(obligations, interfaces, equivalences, statuses) ==
                    CreditOf(View(), cliPath, results[..i])
      {
        var r := results[i];
        assert results[..i + 1][..i] == results[..i];
        statuses := statuses + multiset{r.status};
        if r.status != "passed" {
          NothingGranted(View(), cliPath, r);
          SkipAccounts(View(), cliPath, results, i);
        } else {
          var exercised := Exercise(r, cliPath);
          if exercised.None? {
            return None;
          }
          equivalences := Record(equivalences, exercised.value, r.key);
          ghost var t := View();
          var mapped := Get(mapping, r.key);
          var credited := set id | id in Asserted(View(), r.key) && Observed(View(), r, id);
          PassedGrants(t, cliPath, r);
          obligations := Record(obligations, mapped, r.key);
          interfaces := Record(interfaces, credited, r.key);
        }
      }
      assert results[..|results|] == results;
      return Some(Coverage.Credit.Credit(obligations, interfaces, equivalences, statuses));
    }

    /** The verdict on a report: the tests in order, duplicates by counting the keys. */
    method Verdict(definition: string, stillSame: bool, report: Option<Report>) returns (v: Verification)
      ensures v == Verify(View(), definition, stillSame, report)
    {
      hide Finished, OncePerCase;
      if report.None? {
        return NotRun;
      }
      var r := report.value;
      if r.definition.None? {
        return Unversioned;
      }
      if r.definition.value != definition || !stillSame {
        return Stale;
      }
      if !r.complete {
        return Incomplete;
      }
      var keys: set<Case> := {};
      for i := 0 to |r.results|
        invariant keys == KeysIn(r.results[..i])
      {
        OneMore(r.results[..i], r.results[i]);
        assert r.results[..i + 1] == r.results[..i] + [r.results[i]];
        keys := keys + {r.results[i].key};
      }
      assert r.results[..|r.results|] == r.results;
      OncePerCaseByCount(r.results);
      if |keys| != |r.results| || keys != cases {
        return Invalid;
      }
      for i := 0 to |r.results|
        invariant forall j :: 0 <= j < i ==> Finished(r.results[j])
      {
        if !Finished(r.results[i]) {
          return Invalid;
        }
      }
      var problem := SubjectProblem(r.subject, r.results);
      return if problem then Invalid else Current;
    }

    /** The summary of a report; raises only on an identifier that does not split. */
    method Summarize(definition: string, stillSame: bool, report: Option<Report>) returns (summary: Option<Summary>)
      ensures summary == SummaryOf(View(), definition, stillSame, report)
    {
      hide Splits, CreditOf, Summarized, Verify;
      var v := Verdict(definition, stillSame, report);
      if !v.Current? {
        return Some(Summarized(View(), v, None));
      }
      CurrentIsReported(View(), definition, stillSame, report);
      var credit := Credit(report.value.results, report.value.CliPath());
      if credit.None? {
        return None;
      }
      return Some(Summarized(View(), v, credit));
    }
  }

  lemma CurrentIsReported(t: Tables, definition: string, stillSame: bool, report: Option<Report>)
    requires Verify(t, definition, stillSame, report).Current?
    ensures report.Some?
  {
  }

  lemma NothingGranted(t: Tables, cliPath: string, r: Result)
    requires r.status != "passed"
    ensures forall l: Ledger :: Granted(t, cliPath, l, r) == {}
    ensures Splits(t, r)
  {
  }

  lemma PassedGrants(t: Tables, cliPath: string, r: Result)
    requires r.status == "passed"
    ensures Granted(t, cliPath, Obligations, r) == Get(t.mapping, r.key)
    ensures Granted(t, cliPath, Interfaces, r) == set id | id in Asserted(t, r.key) && Observed(t, r, id)
  {
  }

  lemma SkipAccounts(t: Tables, cliPath: string, results: seq<Result>, i: nat)
    requires i < |results| && forall l: Ledger :: Granted(t, cliPath, l, results[i]) == {}
    ensures forall l: Ledger :: AccountOf(t, cliPath, l, results[..i + 1]) == AccountOf(t, cliPath, l, results[..i])
  {
    hide Granted;
    assert results[..i + 1][..i] == results[..i];
    forall l: Ledger ensures AccountOf(t, cliPath, l, results[..i + 1]) == AccountOf(t, cliPath, l, results[..i]) {
      NoEvidenceAdded(Evidence(t, cliPath, l, results[..i]), results[i].key);
    }
  }

  lemma NoEvidenceAdded(m: map<Id, seq<Case>>, key: Case)
    ensures AddEvidence(m, {}, key) == m
  {
    assert forall id :: id in m ==> m[id] + [] == m[id];
  }
}
