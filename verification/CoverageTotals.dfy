/** Counts of a summary: ordered, conserved, independent of the order of results, monotone. */
module CoverageTotals {
  import opened Sequences
  import opened Options
  import opened Surfaces
  import opened Attribution
  import opened Coverage
  import opened CoverageLaws

  // ---------------------------------------------------------------------------
  // Passed, implemented, total

  predicate Ordered(m: Metric) {
    m.implemented <= m.total && (m.passed.Some? ==> m.passed.value <= m.implemented)
  }

  ghost predicate ForEachMetric(s: Summary, p: Metric -> bool) {
    && (forall k :: k in s.behaviors ==> p(s.behaviors[k]))
    && (forall k :: k in s.surfaces ==> p(s.surfaces[k]))
    && (forall k :: k in s.profiles ==> p(s.profiles[k]))
    && (forall k :: k in s.categories ==> p(s.categories[k]))
    && p(s.equivalenceChecks) && p(s.accounted)
  }

  lemma {:induction false} SubsetCount(a: set<Id>, b: set<Id>)
    requires a <= b
    ensures |a| <= |b|
  {
    assert b == a + (b - a);
  }

  lemma MeasureIsOrdered(universe: set<Id>, implemented: set<Id>, passed: Option<set<Id>>)
    requires passed.Some? ==> passed.value <= implemented
    ensures Ordered(Measure(universe, implemented, passed))
  {
    SubsetCount(universe * implemented, universe);
    if passed.Some? {
      SubsetCount(universe * passed.value, universe * implemented);
    }
  }

  /** What a result grants is planned for in the tables, and lies in the universe of its ledger. */
  lemma GrantsArePlanned(t: Tables, cliPath: string, r: Result)
    requires TablesOk(t)
    ensures Granted(t, cliPath, Obligations, r) <= Implemented(t) <= t.requirements.Keys
    ensures Granted(t, cliPath, Interfaces, r) <= Reached(t) <= t.surfaces.Keys
    ensures Granted(t, cliPath, Equivalences, r) <= Equivalent(t) <= ByKind(t, CliOption)
  {
    hide Observed, Exercised, RequirementOk, SurfacesOf;
    forall id | id in Implemented(t) ensures id in t.requirements {
      var key :| key in t.mapping && id in t.mapping[key];
      assert Covers(t, key, id);
    }
    forall id | id in Reached(t) ensures id in t.surfaces {
      ReachedInTables(t, id);
    }
    forall id | id in Equivalent(t) ensures id in ByKind(t, CliOption) {
      var key :| key in t.equivalents && id in t.equivalents[key];
      assert Checkable(t, key, id);
    }
    forall id | id in Asserted(t, r.key) ensures id in Reached(t) {
      AssertedIsReached(t, r.key, id);
    }
  }

  lemma ReachedInTables(t: Tables, id: Id)
    requires TablesOk(t) && id in Reached(t)
    ensures id in t.surfaces
  {
    if id in SurfacesOf(t, Implemented(t)) {
      var rid :| rid in t.requirements && id in t.requirements[rid].surfaces;
      assert RequirementOk(t.surfaces, t.requirements[rid]);
    } else {
      var key :| key in t.assertions && id in t.assertions[key];
      assert Assertable(t, key, id);
    }
  }

  lemma AssertedIsReached(t: Tables, key: Case, id: Id)
    requires id in Asserted(t, key)
    ensures id in Reached(t)
  {
    if id in SurfacesOf(t, Get(t.mapping, key)) {
      var rid :| rid in Get(t.mapping, key) && rid in t.requirements && id in t.requirements[rid].surfaces;
      assert rid in Implemented(t);
    }
  }

  lemma {:induction false} EarnedIsPlanned(t: Tables, cliPath: string, results: seq<Result>)
    requires TablesOk(t)
    ensures Earned(t, cliPath, Obligations, results) <= Implemented(t) <= t.requirements.Keys
    ensures Earned(t, cliPath, Interfaces, results) <= Reached(t) <= t.surfaces.Keys
    ensures Earned(t, cliPath, Equivalences, results) <= Equivalent(t) <= ByKind(t, CliOption)
  {
    hide TablesOk, Granted, Implemented, Reached, Equivalent;
    if results == [] {
      GrantsArePlanned(t, cliPath, Result(Case("", "", ""), "", false, false, []));
    } else {
      EarnedIsPlanned(t, cliPath, results[..|results| - 1]);
      GrantsArePlanned(t, cliPath, results[|results| - 1]);
    }
  }

  lemma ProfileAt(t: Tables, v: Verification, credit: Option<Credit>, i: string, p: string)
    requires i in {"cli", "library"} && p in {"user", "system", "any"}
    ensures (i, p) in Summarized(t, v, credit).profiles
    ensures Summarized(t, v, credit).profiles[(i, p)] ==
              Measure(ByProfile(t, i, p), Implemented(t), EarnedBy(credit, Obligations))
  {
    hide Measure, ByProfile, Implemented, EarnedBy, ByCategory, ByInterface, ByKind, Reached, Equivalent, Categories;
  }

  lemma CategoryAt(t: Tables, v: Verification, credit: Option<Credit>, i: string, c: string)
    requires i in {"cli", "library"} && c in Categories(t, i)
    ensures (i, c) in Summarized(t, v, credit).categories
    ensures Summarized(t, v, credit).categories[(i, c)] ==
              Measure(ByCategory(t, i, c), Implemented(t), EarnedBy(credit, Obligations))
  {
    hide Measure, ByProfile, Implemented, EarnedBy, ByCategory, ByInterface, ByKind, Reached, Equivalent, Categories;
  }

  /** In every metric of every summary, passed is at most implemented, which is at most the total;
      what is credited is planned for and exists. */
  lemma {:induction false} CreditIsSound(t: Tables, v: Verification, cliPath: string, results: seq<Result>)
    requires TablesOk(t)
    ensures ForEachMetric(Summarized(t, v, Some(CreditOf(t, cliPath, results))), Ordered)
  {
    hide TablesOk, Earned, Evidence, Measure, Ordered, ByProfile, Implemented, ByCategory, ByInterface, ByKind,
      Reached, Equivalent, Categories;
    var credit := Some(CreditOf(t, cliPath, results));
    var s := Summarized(t, v, credit);
    EarnedIsPlanned(t, cliPath, results);
    forall k | k in s.behaviors ensures Ordered(s.behaviors[k]) {
      MeasureIsOrdered(ByInterface(t, k), Implemented(t), EarnedBy(credit, Obligations));
    }
    forall k | k in s.surfaces ensures Ordered(s.surfaces[k]) {
      MeasureIsOrdered(ByKind(t, k), Reached(t), EarnedBy(credit, Interfaces));
    }
    forall k | k in s.profiles ensures Ordered(s.profiles[k]) {
      ProfileAt(t, v, credit, k.0, k.1);
      MeasureIsOrdered(ByProfile(t, k.0, k.1), Implemented(t), EarnedBy(credit, Obligations));
    }
    forall k | k in s.categories ensures Ordered(s.categories[k]) {
      CategoryAt(t, v, credit, k.0, k.1);
      MeasureIsOrdered(ByCategory(t, k.0, k.1), Implemented(t), EarnedBy(credit, Obligations));
    }
    MeasureIsOrdered(ByKind(t, CliOption), Equivalent(t), EarnedBy(credit, Equivalences));
    MeasureIsOrdered(ByKind(t, CliOption), Reached(t) + Equivalent(t),
      Some(Earned(t, cliPath, Interfaces, results) + Earned(t, cliPath, Equivalences, results)));
  }

  predicate Unverified(m: Metric) { m.passed.None? }

  /** A case that only checks that an option changes nothing gives the option no behavioral credit. */
  lemma {:induction false} EquivalenceIsNotBehavior(t: Tables, cliPath: string, r: Result)
    requires TablesOk(t)
    ensures Granted(t, cliPath, Equivalences, r) !! Granted(t, cliPath, Interfaces, r)
  {
    hide RequirementOk, SurfacesOf, Observed, Exercised, Covers, Assertable;
    forall id | id in Granted(t, cliPath, Equivalences, r) ensures id !in Asserted(t, r.key) {
      assert Checkable(t, r.key, id);
    }
  }

  /** Equivalence checks change no obligation and no interface that is earned. */
  lemma {:induction false} EquivalencesNeverCount(t: Tables, equivalents: map<Case, set<Id>>, cliPath: string,
                                                  results: seq<Result>)
    ensures Earned(t.(equivalents := equivalents), cliPath, Obligations, results) ==
              Earned(t, cliPath, Obligations, results)
    ensures Earned(t.(equivalents := equivalents), cliPath, Interfaces, results) ==
              Earned(t, cliPath, Interfaces, results)
  {
    if results != [] {
      EquivalencesNeverCount(t, equivalents, cliPath, results[..|results| - 1]);
      var last, u := results[|results| - 1], t.(equivalents := equivalents);
      assert Asserted(u, last.key) == Asserted(t, last.key);
      assert forall id :: Observed(u, last, id) == Observed(t, last, id);
      assert Granted(u, cliPath, Interfaces, last) == Granted(t, cliPath, Interfaces, last);
    }
  }

  // ---------------------------------------------------------------------------
  // Conservation

  function Plus(a: Metric, b: Metric): Metric {
    Metric(a.total + b.total, a.implemented + b.implemented,
           if a.passed.Some? && b.passed.Some? then Some(a.passed.value + b.passed.value) else None)
  }

  ghost function Pick<K(!new)>(s: set<K>): (k: K)
    requires s != {}
    ensures k in s
  {
    var k :| k in s; k
  }

  /** The sum of the metrics at the keys; `ran` says whether passed counts exist. */
  ghost function Total<K(!new)>(keys: set<K>, m: map<K, Metric>, ran: bool): Metric
    requires keys <= m.Keys
  {
    if keys == {} then Metric(0, 0, if ran then Some(0) else None)
    else var k := Pick(keys); Plus(m[k], Total(keys - {k}, m, ran))
  }

  lemma MeasureAdds(a: set<Id>, b: set<Id>, implemented: set<Id>, passed: Option<set<Id>>)
    requires a !! b
    ensures Measure(a + b, implemented, passed) ==
              Plus(Measure(a, implemented, passed), Measure(b, implemented, passed))
  {
    assert (a + b) * implemented == a * implemented + b * implemented;
    if passed.Some? {
      assert (a + b) * passed.value == a * passed.value + b * passed.value;
    }
  }

  ghost function Parts<K(!new)>(keys: set<K>, part: K -> set<Id>): set<Id> {
    set k, id | k in keys && id in part(k) :: id
  }

  /** Measures of disjoint parts add up to the measure of their union. */
  lemma {:induction false} PartsAddUp<K(!new)>(keys: set<K>, part: K -> set<Id>, m: map<K, Metric>,
                                               implemented: set<Id>, passed: Option<set<Id>>)
    requires keys <= m.Keys && forall k :: k in keys ==> m[k] == Measure(part(k), implemented, passed)
    requires forall j, k :: j in keys && k in keys && j != k ==> part(j) !! part(k)
    ensures Total(keys, m, passed.Some?) == Measure(Parts(keys, part), implemented, passed)
  {
    hide Measure, Parts;
    if keys == {} {
      NoParts(part, implemented, passed);
    } else {
      var k := Pick(keys);
      PartsAddUp(keys - {k}, part, m, implemented, passed);
      PartOff(keys, part, k);
      MeasureAdds(part(k), Parts(keys - {k}, part), implemented, passed);
    }
  }

  lemma NoParts<K(!new)>(part: K -> set<Id>, implemented: set<Id>, passed: Option<set<Id>>)
    ensures Measure(Parts({}, part), implemented, passed) == Metric(0, 0, if passed.Some? then Some(0) else None)
  {
    assert Parts({}, part) == {};
  }

  lemma PartOff<K(!new)>(keys: set<K>, part: K -> set<Id>, k: K)
    requires k in keys && forall j :: j in keys && j != k ==> part(j) !! part(k)
    ensures Parts(keys, part) == part(k) + Parts(keys - {k}, part)
    ensures part(k) !! Parts(keys - {k}, part)
  {
  }

  function Below(keys: set<(string, string)>, i: string): set<(string, string)> { set k | k in keys && k.0 == i }

  /** The profile metrics of an interface add up to its behavior metric, in all three counts. */
  lemma {:induction false} ProfilesAddUp(t: Tables, v: Verification, credit: Option<Credit>, i: string)
    requires TablesOk(t) && i in {"cli", "library"}
    ensures var s := Summarized(t, v, credit);
            Total(Below(s.profiles.Keys, i), s.profiles, credit.Some?) == s.behaviors[i]
  {
    hide Measure, Implemented, Reached, Equivalent, Categories, MappingOk, Covers, Assertable, Checkable;
    var s, passed := Summarized(t, v, credit), EarnedBy(credit, Obligations);
    var keys, part := Below(s.profiles.Keys, i), (k: (string, string)) => ByProfile(t, k.0, k.1);
    forall k | k in keys ensures s.profiles[k] == Measure(part(k), Implemented(t), passed) {
      ProfileAt(t, v, credit, k.0, k.1);
    }
    PartsAddUp(keys, part, s.profiles, Implemented(t), passed);
    forall id | id in ByInterface(t, i) ensures id in Parts(keys, part) {
      var p := t.requirements[id].profile;
      assert RequirementOk(t.surfaces, t.requirements[id]);
      ProfileAt(t, v, credit, i, p);
      assert (i, p) in keys && id in part((i, p));
    }
    assert Parts(keys, part) == ByInterface(t, i);
  }

  /** So do the category metrics. */
  lemma {:induction false} CategoriesAddUp(t: Tables, v: Verification, credit: Option<Credit>, i: string)
    requires i in {"cli", "library"}
    ensures var s := Summarized(t, v, credit);
            Total(Below(s.categories.Keys, i), s.categories, credit.Some?) == s.behaviors[i]
  {
    hide Measure, Implemented, Reached, Equivalent;
    var s, passed := Summarized(t, v, credit), EarnedBy(credit, Obligations);
    var keys, part := Below(s.categories.Keys, i), (k: (string, string)) => ByCategory(t, k.0, k.1);
    forall k | k in keys ensures s.categories[k] == Measure(part(k), Implemented(t), passed) {
      CategoryAt(t, v, credit, k.0, k.1);
    }
    PartsAddUp(keys, part, s.categories, Implemented(t), passed);
    forall id | id in ByInterface(t, i) ensures id in Parts(keys, part) {
      var c := t.requirements[id].category;
      assert c in Categories(t, i);
      CategoryAt(t, v, credit, i, c);
      assert (i, c) in keys && id in part((i, c));
    }
    assert Parts(keys, part) == ByInterface(t, i);
  }

  /** The two behavior metrics cover all requirements, each once. */
  lemma {:induction false} RequirementsAreCountedOnce(t: Tables, v: Verification, credit: Option<Credit>)
    requires TablesOk(t)
    ensures var s := Summarized(t, v, credit);
            Total(s.behaviors.Keys, s.behaviors, credit.Some?) ==
              Measure(t.requirements.Keys, Implemented(t), EarnedBy(credit, Obligations))
  {
    hide Measure, Implemented, Reached, Equivalent, Categories, MappingOk, Covers, Assertable, Checkable, ByKind,
      ByProfile, ByCategory;
    var s := Summarized(t, v, credit);
    var byInterface := (i: string) => ByInterface(t, i);
    PartsAddUp(s.behaviors.Keys, byInterface, s.behaviors, Implemented(t), EarnedBy(credit, Obligations));
    forall id | id in t.requirements ensures id in Parts(s.behaviors.Keys, byInterface) {
      var i := t.requirements[id].interface;
      assert RequirementOk(t.surfaces, t.requirements[id]);
      assert i in s.behaviors && id in byInterface(i);
    }
    assert Parts(s.behaviors.Keys, byInterface) == t.requirements.Keys;
  }

  /** The four interface metrics cover all surfaces, each once. */
  lemma {:induction false} SurfacesAreCountedOnce(t: Tables, v: Verification, credit: Option<Credit>)
    ensures var s := Summarized(t, v, credit);
            Total(s.surfaces.Keys, s.surfaces, credit.Some?) ==
              Measure(t.surfaces.Keys, Reached(t), EarnedBy(credit, Interfaces))
  {
    hide Measure, Implemented, Reached, Equivalent, Categories, ByInterface, ByProfile, ByCategory;
    var s := Summarized(t, v, credit);
    var byKind := (k: Kind) => ByKind(t, k);
    PartsAddUp(s.surfaces.Keys, byKind, s.surfaces, Reached(t), EarnedBy(credit, Interfaces));
    forall id | id in t.surfaces ensures id in Parts(s.surfaces.Keys, byKind) {
      var k := t.surfaces[id];
      assert k in s.surfaces && id in byKind(k);
    }
    assert Parts(s.surfaces.Keys, byKind) == t.surfaces.Keys;
  }

  // ---------------------------------------------------------------------------
  // Order and growth

  lemma EarnedIgnoresOrder(t: Tables, cliPath: string, l: Ledger, a: seq<Result>, b: seq<Result>)
    requires Permuted(a, b)
    ensures Earned(t, cliPath, l, a) == Earned(t, cliPath, l, b)
  {
    hide Earned, Granted, Permuted;
    PermutedMembers(a, b);
    forall id ensures id in Earned(t, cliPath, l, a) <==> id in Earned(t, cliPath, l, b) {
      EarnedIsGranted(t, cliPath, l, a, id);
      EarnedIsGranted(t, cliPath, l, b, id);
    }
  }

  lemma {:induction false} StatusesWithout(results: seq<Result>, i: nat)
    requires i < |results|
    ensures Statuses(results) == Statuses(Without(results, i)) + multiset{results[i].status}
  {
    hide Statuses;
    var n := |results| - 1;
    var rest := Without(results, i);
    assert results == results[..n] + [results[n]];
    StatusesOfLast(results[..n], results[n]);
    if i == n {
      assert rest == results[..n];
    } else {
      StatusesWithout(results[..n], i);
      var front := Without(results[..n], i);
      assert rest == front + [results[n]];
      StatusesOfLast(front, results[n]);
    }
  }

  lemma StatusesOfLast(front: seq<Result>, last: Result)
    ensures Statuses(front + [last]) == Statuses(front) + multiset{last.status}
  {
    assert (front + [last])[..|front|] == front;
  }

  lemma {:induction false} StatusesIgnoreOrder(a: seq<Result>, b: seq<Result>)
    requires Permuted(a, b)
    ensures Statuses(a) == Statuses(b)
  {
    hide Statuses;
    if a == [] {
      PermutedMembers(a, b);
      assert a == b;
    } else {
      var n := |a| - 1;
      var i := FindLast(a, b);
      StatusesIgnoreOrder(a[..n], Without(b, i));
      StatusesWithout(a, n);
      StatusesWithout(b, i);
      assert Without(a, n) == a[..n];
    }
  }

  predicate SameCounts(a: Credit, b: Credit) {
    && a.obligations.earned == b.obligations.earned && a.interfaces.earned == b.interfaces.earned
    && a.equivalences.earned == b.equivalences.earned && a.statuses == b.statuses
  }

  /** Reordering the results changes neither the verdict on the report nor any metric,
      only the order in which evidence is listed. */
  lemma {:induction false} SummaryIgnoresOrder(t: Tables, definition: string, stillSame: bool, report: Report,
                                               results: seq<Result>)
    requires Permuted(report.results, results)
    ensures var other := report.(results := results);
            && Verify(t, definition, stillSame, Some(other)) == Verify(t, definition, stillSame, Some(report))
            && SameCounts(CreditOf(t, report.CliPath(), results), CreditOf(t, report.CliPath(), report.results))
            && var v := Verify(t, definition, stillSame, Some(report));
               Summarized(t, v, Some(CreditOf(t, report.CliPath(), results))) ==
               Summarized(t, v, Some(CreditOf(t, report.CliPath(), report.results)))
               .(credit := Some(CreditOf(t, report.CliPath(), results)))
  {
    hide Permuted, Earned, Evidence, Statuses, Finished, KeysIn, OncePerCase, Attributed, Measure, Implemented, Reached,
      Equivalent, Categories;
    var a := report.results;
    EarnedIgnoresOrder(t, report.CliPath(), Obligations, a, results);
    EarnedIgnoresOrder(t, report.CliPath(), Interfaces, a, results);
    EarnedIgnoresOrder(t, report.CliPath(), Equivalences, a, results);
    StatusesIgnoreOrder(a, results);
    SameVerdict(a, results);
    SameAttribution(report.subject, a, results);
  }

  /** Whether the report is attributed does not depend on the order of its results. */
  lemma SameAttribution(s: Subject, a: seq<Result>, b: seq<Result>)
    requires Permuted(a, b)
    ensures Attributed(s, a) <==> Attributed(s, b)
  {
    hide Permuted, Selected, LibrarySelected, Evidenced;
    PermutedMembers(a, b);
  }

  lemma SameVerdict(a: seq<Result>, b: seq<Result>)
    requires Permuted(a, b)
    ensures KeysIn(a) == KeysIn(b) && (OncePerCase(a) <==> OncePerCase(b))
    ensures (exists i :: 0 <= i < |a| && !Finished(a[i])) <==> (exists i :: 0 <= i < |b| && !Finished(b[i]))
  {
    hide Permuted, Finished;
    PermutedMembers(a, b);
    KeysByMember(a);
    KeysByMember(b);
    OncePerCaseByCount(a);
    OncePerCaseByCount(b);
    assert (exists i :: 0 <= i < |a| && !Finished(a[i])) <==> exists r :: r in a && !Finished(r);
    assert (exists i :: 0 <= i < |b| && !Finished(b[i])) <==> exists r :: r in b && !Finished(r);
  }

  /** The same run with at least the same passed cases. */
  ghost predicate Enlarged(a: seq<Result>, b: seq<Result>) {
    |a| == |b| && forall i :: 0 <= i < |a| ==>
      b[i].key == a[i].key && b[i].evidence == a[i].evidence && (a[i].status == "passed" ==> b[i].status == "passed")
  }

  lemma {:induction false} EarnedGrows(t: Tables, cliPath: string, l: Ledger, a: seq<Result>, b: seq<Result>)
    requires Enlarged(a, b)
    ensures Earned(t, cliPath, l, a) <= Earned(t, cliPath, l, b)
  {
    if a != [] {
      var n := |a| - 1;
      EarnedGrows(t, cliPath, l, a[..n], b[..n]);
    }
  }

  predicate AtMost(a: Metric, b: Metric) {
    && a.total == b.total && a.implemented == b.implemented
    && a.passed.Some? && b.passed.Some? && a.passed.value <= b.passed.value
  }

  ghost predicate NoneLower(a: Summary, b: Summary) {
    && a.behaviors.Keys == b.behaviors.Keys && (forall k :: k in a.behaviors ==> AtMost(a.behaviors[k], b.behaviors[k]))
    && a.surfaces.Keys == b.surfaces.Keys && (forall k :: k in a.surfaces ==> AtMost(a.surfaces[k], b.surfaces[k]))
    && a.profiles.Keys == b.profiles.Keys && (forall k :: k in a.profiles ==> AtMost(a.profiles[k], b.profiles[k]))
    && a.categories.Keys == b.categories.Keys
       && (forall k :: k in a.categories ==> AtMost(a.categories[k], b.categories[k]))
    && AtMost(a.equivalenceChecks, b.equivalenceChecks) && AtMost(a.accounted, b.accounted)
  }

  lemma MeasureGrows(universe: set<Id>, implemented: set<Id>, p: set<Id>, q: set<Id>)
    requires p <= q
    ensures AtMost(Measure(universe, implemented, Some(p)), Measure(universe, implemented, Some(q)))
  {
    SubsetCount(universe * p, universe * q);
  }

  /** More passing cases never lower a passed count and change no denominator. */
  lemma {:induction false} MorePassingNeverLowers(t: Tables, v: Verification, cliPath: string, a: seq<Result>,
                                                  b: seq<Result>)
    requires Enlarged(a, b)
    ensures NoneLower(Summarized(t, v, Some(CreditOf(t, cliPath, a))), Summarized(t, v, Some(CreditOf(t, cliPath, b))))
  {
    hide Enlarged, Earned, Evidence, Measure, AtMost, ByProfile, Implemented, ByCategory, ByInterface, ByKind, Reached,
      Equivalent, Categories;
    var c, d := Some(CreditOf(t, cliPath, a)), Some(CreditOf(t, cliPath, b));
    var x, y := Summarized(t, v, c), Summarized(t, v, d);
    EarnedGrows(t, cliPath, Obligations, a, b);
    EarnedGrows(t, cliPath, Interfaces, a, b);
    EarnedGrows(t, cliPath, Equivalences, a, b);
    var p, q := c.value.obligations.earned, d.value.obligations.earned;
    forall k | k in x.behaviors ensures AtMost(x.behaviors[k], y.behaviors[k]) {
      MeasureGrows(ByInterface(t, k), Implemented(t), p, q);
    }
    forall k | k in x.surfaces ensures AtMost(x.surfaces[k], y.surfaces[k]) {
      MeasureGrows(ByKind(t, k), Reached(t), c.value.interfaces.earned, d.value.interfaces.earned);
    }
    forall k | k in x.profiles ensures AtMost(x.profiles[k], y.profiles[k]) {
      ProfileAt(t, v, c, k.0, k.1);
      ProfileAt(t, v, d, k.0, k.1);
      MeasureGrows(ByProfile(t, k.0, k.1), Implemented(t), p, q);
    }
    forall k | k in x.categories ensures AtMost(x.categories[k], y.categories[k]) {
      CategoryAt(t, v, c, k.0, k.1);
      CategoryAt(t, v, d, k.0, k.1);
      MeasureGrows(ByCategory(t, k.0, k.1), Implemented(t), p, q);
    }
    MeasureGrows(ByKind(t, CliOption), Equivalent(t), c.value.equivalences.earned, d.value.equivalences.earned);
    MeasureGrows(ByKind(t, CliOption), Reached(t) + Equivalent(t),
      c.value.interfaces.earned + c.value.equivalences.earned, d.value.interfaces.earned + d.value.equivalences.earned);
  }
}
