/** Credit is sound and exact: what the validated tables and the summary guarantee. */
module CoverageLaws {
  import opened Sequences
  import opened Surfaces
  import opened OptionInvocation
  import opened Coverage

  // ---------------------------------------------------------------------------
  // Tables

  lemma MappingKeepsTables(t: Tables, m: Mapping)
    requires TablesOk(t) && MappingOk(t, m)
    ensures TablesOk(AddMapping(t, m))
  {
    hide RequirementOk;
    var u := AddMapping(t, m);
    forall key, id | key in u.mapping && id in u.mapping[key] ensures Covers(u, key, id) {
      assert key != m.key ==> Covers(t, key, id);
    }
    forall key, id | key in u.assertions && id in u.assertions[key] ensures Assertable(u, key, id) {
      assert key != m.key ==> Assertable(t, key, id);
    }
    forall key, id | key in u.equivalents && id in u.equivalents[key]
      ensures Checkable(u, key, id)
    {
      assert SurfacesOf(u, u.mapping[key]) == SurfacesOf(t, u.mapping[key]);
      if key == m.key {
      } else {
        assert Checkable(t, key, id);
      }
    }
  }

  lemma {:induction false} MappingsKeepTables(t: Tables, ms: seq<Mapping>)
    requires TablesOk(t) && AddMappings(t, ms).Some?
    ensures TablesOk(AddMappings(t, ms).value)
  {
    hide TablesOk, MappingOk, AddMapping;
    if ms != [] {
      MappingsKeepTables(t, ms[..|ms| - 1]);
      MappingKeepsTables(AddMappings(t, ms[..|ms| - 1]).value, ms[|ms| - 1]);
    }
  }

  /** Validated requirements and cases with any accepted list of mappings give consistent tables:
      nothing is mapped across interfaces or profiles, and no equivalence check has behavioral
      credit from its own case. */
  lemma {:induction false} AcceptedTablesAreConsistent(surfaces: map<Id, Kind>, requirements: map<Id, Requirement>,
                                                       cases: set<Case>, ms: seq<Mapping>)
    requires forall id :: id in requirements ==> RequirementOk(surfaces, requirements[id])
    requires forall key :: key in cases ==> CaseOk(key)
    requires AddMappings(Tables(surfaces, requirements, cases, map[], map[], map[]), ms).Some?
    ensures TablesOk(AddMappings(Tables(surfaces, requirements, cases, map[], map[], map[]), ms).value)
  {
    hide RequirementOk, AddMappings;
    MappingsKeepTables(Tables(surfaces, requirements, cases, map[], map[], map[]), ms);
  }

  // ---------------------------------------------------------------------------
  // Exactness

  /** An identifier is earned exactly if some result grants it. */
  lemma {:induction false} EarnedIsGranted(t: Tables, cliPath: string, l: Ledger, results: seq<Result>, id: Id)
    ensures id in Earned(t, cliPath, l, results) <==>
              exists r :: r in results && id in Granted(t, cliPath, l, r)
  {
    hide Granted;
    if results != [] {
      var front, last := results[..|results| - 1], results[|results| - 1];
      EarnedIsGranted(t, cliPath, l, front, id);
      assert forall r :: r in results <==> r in front || r == last by {
        assert results == front + [last];
      }
    }
  }

  /** The cases of the results that grant the identifier, in report order. */
  function Granters(t: Tables, cliPath: string, l: Ledger, results: seq<Result>, id: Id): seq<Case> {
    if results == [] then []
    else
      var last := results[|results| - 1];
      Granters(t, cliPath, l, results[..|results| - 1], id) +
      (if id in Granted(t, cliPath, l, last) then [last.key] else [])
  }

  /** The evidence of a ledger has exactly the earned identifiers as its keys and lists for
      each the granting cases in report order. */
  lemma {:induction false} EvidenceIsExact(t: Tables, cliPath: string, l: Ledger, results: seq<Result>)
    ensures Evidence(t, cliPath, l, results).Keys == Earned(t, cliPath, l, results)
    ensures forall id :: id in Earned(t, cliPath, l, results) ==>
              Evidence(t, cliPath, l, results)[id] == Granters(t, cliPath, l, results, id)
    ensures forall id :: id !in Earned(t, cliPath, l, results) ==> Granters(t, cliPath, l, results, id) == []
  {
    hide Granted;
    if results != [] {
      var front := results[..|results| - 1];
      EvidenceIsExact(t, cliPath, l, front);
      forall id | id in Earned(t, cliPath, l, results)
        ensures Evidence(t, cliPath, l, results)[id] == Granters(t, cliPath, l, results, id)
      {
        assert id !in Earned(t, cliPath, l, front) ==> Granters(t, cliPath, l, front, id) == [];
      }
    }
  }

  lemma {:induction false} GrantersAreResults(t: Tables, cliPath: string, l: Ledger, results: seq<Result>, id: Id)
    ensures forall key :: key in Granters(t, cliPath, l, results, id) <==>
              exists r :: r in results && r.key == key && id in Granted(t, cliPath, l, r)
  {
    hide Granted;
    if results != [] {
      var front, last := results[..|results| - 1], results[|results| - 1];
      GrantersAreResults(t, cliPath, l, front, id);
      assert forall r :: r in results <==> r in front || r == last by {
        assert results == front + [last];
      }
    }
  }

  lemma LastIsNew(results: seq<Result>)
    requires results != [] && OncePerCase(results)
    ensures OncePerCase(results[..|results| - 1])
    ensures forall r :: r in results[..|results| - 1] ==> r.key != results[|results| - 1].key
  {
    var front := results[..|results| - 1];
    forall r | r in front ensures r.key != results[|results| - 1].key {
      var i :| 0 <= i < |front| && front[i] == r;
      assert results[i] == r;
    }
  }

  lemma AppendNew(g: seq<Case>, key: Case)
    requires key !in g && Distinct(g)
    ensures Distinct(g + [key])
  {
  }

  /** With one result per case no case is listed twice as evidence. */
  lemma {:induction false} EvidenceNamesNoCaseTwice(t: Tables, cliPath: string, l: Ledger, results: seq<Result>, id: Id)
    requires OncePerCase(results)
    ensures Distinct(Granters(t, cliPath, l, results, id))
  {
    if results != [] {
      hide Granted, OncePerCase, Distinct;
      var front, last := results[..|results| - 1], results[|results| - 1];
      LastIsNew(results);
      EvidenceNamesNoCaseTwice(t, cliPath, l, front, id);
      GrantersAreResults(t, cliPath, l, front, id);
      var g := Granters(t, cliPath, l, front, id);
      assert last.key !in g;
      AppendNew(g, last.key);
      assert g + [] == g;
    }
  }

  /** A requirement is earned exactly through a passed case mapped to it; the case has its
      interface, and has its profile unless the requirement takes any. */
  lemma {:induction false} RequirementNeedsItsProfile(t: Tables, cliPath: string, results: seq<Result>, id: Id)
    requires TablesOk(t)
    ensures id in Earned(t, cliPath, Obligations, results) <==>
              exists r :: r in results && r.status == "passed" && r.key in t.mapping && id in t.mapping[r.key]
    ensures id in Earned(t, cliPath, Obligations, results) ==>
              exists r :: r in results && r.status == "passed" && Covers(t, r.key, id)
  {
    hide RequirementOk, Assertable, SurfacesOf;
    EarnedIsGranted(t, cliPath, Obligations, results, id);
    if id in Earned(t, cliPath, Obligations, results) {
      var r :| r in results && id in Granted(t, cliPath, Obligations, r);
      assert Covers(t, r.key, id);
    }
    if r :| r in results && r.status == "passed" && r.key in t.mapping && id in t.mapping[r.key] {
      assert id in Granted(t, cliPath, Obligations, r);
    }
  }

  lemma AssertedInTables(t: Tables, key: Case, id: Id)
    requires TablesOk(t) && id in Asserted(t, key)
    ensures id in t.surfaces && (key.driver == "library" || key.driver == "cli")
    ensures key.driver == "library" <==> t.surfaces[id].LibraryFunction? || t.surfaces[id].LibrarySignal?
  {
    if id in Get(t.assertions, key) {
      assert Assertable(t, key, id);
      assert CaseOk(key);
    } else {
      var rid :| rid in Get(t.mapping, key) && rid in t.requirements && id in t.requirements[rid].surfaces;
      assert Covers(t, key, rid) && RequirementOk(t.surfaces, t.requirements[rid]);
    }
  }

  /** A library function is credited exactly if a passed case asserts it and the trace of the
      library client in that case shows the call; only library cases can do so. */
  lemma {:induction false} FunctionNeedsItsTrace(t: Tables, cliPath: string, results: seq<Result>, id: Id)
    requires TablesOk(t) && id in t.surfaces && t.surfaces[id].LibraryFunction?
    ensures id in Earned(t, cliPath, Interfaces, results) <==>
              exists r :: r in results && r.status == "passed" && r.key.driver == "library"
                && id in Asserted(t, r.key) && InTrace(r, false, "library.function.", id)
  {
    hide TablesOk, InTrace, Asserted;
    EarnedIsGranted(t, cliPath, Interfaces, results, id);
    forall r | r in results && id in Granted(t, cliPath, Interfaces, r) ensures r.key.driver == "library" {
      AssertedInTables(t, r.key, id);
    }
    if r :|
         && r in results && r.status == "passed" && id in Asserted(t, r.key)
         && InTrace(r, false, "library.function.", id) {
      assert id in Granted(t, cliPath, Interfaces, r);
    }
  }

  /** The same for signals, with the signal trace. */
  lemma {:induction false} SignalNeedsItsTrace(t: Tables, cliPath: string, results: seq<Result>, id: Id)
    requires TablesOk(t) && id in t.surfaces && t.surfaces[id].LibrarySignal?
    ensures id in Earned(t, cliPath, Interfaces, results) <==>
              exists r :: r in results && r.status == "passed" && r.key.driver == "library"
                && id in Asserted(t, r.key) && InTrace(r, true, "library.signal.", id)
  {
    hide TablesOk, InTrace, Asserted;
    EarnedIsGranted(t, cliPath, Interfaces, results, id);
    forall r | r in results && id in Granted(t, cliPath, Interfaces, r) ensures r.key.driver == "library" {
      AssertedInTables(t, r.key, id);
    }
    if r :|
         && r in results && r.status == "passed" && id in Asserted(t, r.key)
         && InTrace(r, true, "library.signal.", id) {
      assert id in Granted(t, cliPath, Interfaces, r);
    }
  }

  // ---------------------------------------------------------------------------
  // Reports

  lemma KeysByMember(a: seq<Result>)
    ensures forall k :: k in KeysIn(a) <==> exists r :: r in a && r.key == k
  {
    forall k ensures k in KeysIn(a) <==> exists r :: r in a && r.key == k {
      if r :| r in a && r.key == k {
        var i :| 0 <= i < |a| && a[i] == r;
        assert a[i].key == k;
      }
    }
  }

  /** The duplicate test by counting: one result per case exactly if there are as many cases as results. */
  lemma {:induction false} OncePerCaseByCount(results: seq<Result>)
    ensures |KeysIn(results)| <= |results|
    ensures OncePerCase(results) <==> |KeysIn(results)| == |results|
  {
    if results == [] {
      assert KeysIn(results) == {};
    } else {
      var front, last := results[..|results| - 1], results[|results| - 1];
      OncePerCaseByCount(front);
      assert results == front + [last];
      OneMore(front, last);
      hide KeysIn, OncePerCase;
      if last.key in KeysIn(front) {
        assert KeysIn(results) == KeysIn(front);
      } else {
        assert |KeysIn(results)| == |KeysIn(front)| + 1;
      }
    }
  }

  lemma OneMore(front: seq<Result>, last: Result)
    ensures KeysIn(front + [last]) == KeysIn(front) + {last.key}
    ensures OncePerCase(front + [last]) <==> OncePerCase(front) && last.key !in KeysIn(front)
  {
    var results := front + [last];
    KeysByMember(results);
    KeysByMember(front);
    assert forall i, j :: 0 <= i < j < |front| ==> results[i] == front[i] && results[j] == front[j];
    if last.key in KeysIn(front) {
      var i :| 0 <= i < |front| && front[i].key == last.key;
      assert results[i].key == results[|front|].key;
    }
  }

  /** With option identifiers as the generator builds them, no equivalence check can raise. */
  lemma {:induction false} GeneratedOptionsSplit(t: Tables, r: Result)
    requires TablesOk(t) && OptionsGenerated(t.surfaces)
    ensures Splits(t, r)
  {
    hide RequirementOk, Covers, Assertable, SplitId, OptionId, SurfacesOf;
    forall id | id in Get(t.equivalents, r.key) ensures SplitId(id).Some? {
      assert Checkable(t, r.key, id);
      var command, name :| IsGeneratedId(id, command, name);
      GeneratedIdSplitsBack(command, name);
    }
  }
}
