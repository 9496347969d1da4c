/** Which mappings are accepted, and what the tables then hold, by the fields of the mappings. */
module MappingLaws {
  import opened Sequences
  import opened Surfaces
  import opened Coverage
  import Text

  /** No identifier is given twice. */
  predicate OnceEach(pairs: seq<(Id, string)>) {
    forall i, j :: 0 <= i < |pairs| && 0 <= j < |pairs| && pairs[i].0 == pairs[j].0 ==> i == j
  }

  predicate OfLibrary(k: Kind) { k == LibraryFunction || k == LibrarySignal }

  /** The requirement is known, of the interface of the case, and for its profile or for any. */
  predicate MayCover(t: Tables, key: Case, id: Id) {
    && id in t.requirements.Keys && t.requirements[id].interface == key.driver
    && t.requirements[id].profile in {"any", key.profile}
  }

  /** The interface is one that a case of this driver asserts by itself, with a reason. */
  predicate MayAssert(t: Tables, key: Case, pair: (Id, string)) {
    && pair.0 in t.surfaces.Keys && |pair.1| > 0
    && (key.driver == "cli" ==> t.surfaces[pair.0] == CliOption)
    && (key.driver != "cli" ==> OfLibrary(t.surfaces[pair.0]))
  }

  /** The option is checked for equivalence, with a reason, and gets no other credit from the case. */
  ghost predicate MayCheck(t: Tables, m: Mapping, pair: (Id, string)) {
    && m.key.driver == "cli" && pair.0 in t.surfaces.Keys && t.surfaces[pair.0] == CliOption
    && (exists k :: 0 <= k < |pair.1| && !Text.IsSpace(pair.1[k]))
    && (forall a :: a in m.assertions ==> a.0 != pair.0)
    && forall id :: id in m.requirements && id in t.requirements ==> pair.0 !in t.requirements[id].surfaces
  }

  lemma ReasonIsGiven(s: string)
    ensures Text.Strip(s) != "" <==> exists k :: 0 <= k < |s| && !Text.IsSpace(s[k])
  {
    hide Text.IsSpace;
    if k :| 0 <= k < |s| && !Text.IsSpace(s[k]) {
      assert Text.SkipSpace(s, 0) <= k;
      assert Text.DropSpace(s, Text.SkipSpace(s, 0), |s|) > k;
    }
  }

  lemma CheckedIfEquivalent(t: Tables, m: Mapping, pair: (Id, string))
    ensures MayCheck(t, m, pair) <==> EquivalentOk(t, m, pair)
  {
    ReasonIsGiven(pair.1);
    hide Text.Strip, Text.IsSpace;
    if pair.0 in KeysOf(m.assertions) {
      var i :| 0 <= i < |m.assertions| && m.assertions[i].0 == pair.0;
      assert m.assertions[i] in m.assertions;
    }
    if a :| a in m.assertions && a.0 == pair.0 {
      var i :| 0 <= i < |m.assertions| && m.assertions[i] == a;
      assert pair.0 in KeysOf(m.assertions);
    }
    if id :| id in m.requirements && id in t.requirements && pair.0 in t.requirements[id].surfaces {
      var i :| 0 <= i < |m.requirements| && m.requirements[i] == id;
      assert id in IdsOf(m.requirements);
      assert pair.0 in SurfacesOf(t, IdsOf(m.requirements));
    }
  }

  /** A mapping is accepted exactly if its case is known and not mapped yet, it has a reason, its
      requirements are given once and may be covered, and its assertions and equivalences are given
      once and allowed. */
  lemma {:induction false} MappingByFields(t: Tables, m: Mapping)
    ensures MappingOk(t, m) <==>
              && m.key in t.cases && m.key !in t.mapping.Keys && |m.rationale| > 0
              && Distinct(m.requirements)
              && (forall id :: id in m.requirements ==> MayCover(t, m.key, id))
              && OnceEach(m.assertions) && (forall a :: a in m.assertions ==> MayAssert(t, m.key, a))
              && OnceEach(m.equivalents) && forall e :: e in m.equivalents ==> MayCheck(t, m, e)
  {
    forall pair ensures MayCheck(t, m, pair) <==> EquivalentOk(t, m, pair) {
      CheckedIfEquivalent(t, m, pair);
    }
    hide MayCheck, EquivalentOk;
    assert OnceEach(m.assertions) <==> UniqueKeys(m.assertions);
    assert OnceEach(m.equivalents) <==> UniqueKeys(m.equivalents);
    forall id ensures MayCover(t, m.key, id) <==> Covers(t, m.key, id) {
    }
    forall a: (Id, string) ensures MayAssert(t, m.key, a) <==> Assertable(t, m.key, a.0) && a.1 != "" {
    }
    hide MayCover, Covers, MayAssert, Assertable, UniqueKeys, OnceEach;
    assert forall xs: seq<Id>, i :: 0 <= i < |xs| ==> xs[i] in xs;
    assert forall xs: seq<(Id, string)>, i :: 0 <= i < |xs| ==> xs[i] in xs;
  }

  // ---------------------------------------------------------------------------
  // The list of mappings

  /** The tables list for the case what its mapping lists. */
  ghost predicate Filed(t: Tables, m: Mapping) {
    && m.key in t.mapping && m.key in t.assertions && m.key in t.equivalents
    && (forall id :: id in t.mapping[m.key] <==> id in m.requirements)
    && (forall id :: id in t.assertions[m.key] <==> exists a :: a in m.assertions && a.0 == id)
    && (forall id :: id in t.equivalents[m.key] <==> exists e :: e in m.equivalents && e.0 == id)
  }

  lemma KeysByMember(pairs: seq<(Id, string)>)
    ensures forall id :: id in KeysOf(pairs) <==> exists a :: a in pairs && a.0 == id
  {
    forall id ensures id in KeysOf(pairs) <==> exists a :: a in pairs && a.0 == id {
      if id in KeysOf(pairs) {
        var i :| 0 <= i < |pairs| && pairs[i].0 == id;
        assert pairs[i] in pairs;
      }
      if a :| a in pairs && a.0 == id {
        var i :| 0 <= i < |pairs| && pairs[i] == a;
      }
    }
  }

  lemma AddedIsFiled(t: Tables, m: Mapping)
    ensures Filed(AddMapping(t, m), m)
  {
    KeysByMember(m.assertions);
    KeysByMember(m.equivalents);
    hide KeysOf;
    assert forall id :: id in IdsOf(m.requirements) <==> id in m.requirements;
  }

  lemma StaysFiled(t: Tables, m: Mapping, other: Mapping)
    requires Filed(t, other) && m.key != other.key
    ensures Filed(AddMapping(t, m), other)
  {
    hide KeysOf, IdsOf;
  }

  /** Accepted one after another, the mappings fill the tables with exactly what they list. */
  lemma {:induction false} TablesByMappings(t: Tables, ms: seq<Mapping>)
    requires AddMappings(t, ms).Some?
    ensures var u := AddMappings(t, ms).value;
            && u.surfaces == t.surfaces && u.requirements == t.requirements && u.cases == t.cases
            && (forall key :: key in u.mapping <==> key in t.mapping || exists m :: m in ms && m.key == key)
            && forall m :: m in ms ==> Filed(u, m)
  {
    hide Filed, IdsOf, KeysOf;
    if ms != [] {
      var n := |ms| - 1;
      var u := AddMappings(t, ms[..n]).value;
      TablesByMappings(t, ms[..n]);
      assert ms == ms[..n] + [ms[n]];
      MappedOnce(u, ms[n]);
      hide MappingOk;
      AddedIsFiled(u, ms[n]);
      forall m | m in ms[..n] ensures Filed(AddMapping(u, ms[n]), m) {
        StaysFiled(u, ms[n], m);
      }
    }
  }

  lemma MappedOnce(t: Tables, m: Mapping)
    requires MappingOk(t, m)
    ensures m.key !in t.mapping
  {
  }

  predicate CasesDiffer(ms: seq<Mapping>) { forall i, j :: 0 <= i < j < |ms| ==> ms[i].key != ms[j].key }

  lemma OneMoreCase(ms: seq<Mapping>, m: Mapping)
    ensures CasesDiffer(ms + [m]) <==> CasesDiffer(ms) && forall other :: other in ms ==> other.key != m.key
  {
    var all := ms + [m];
    assert forall i :: 0 <= i < |ms| ==> all[i] == ms[i];
    if CasesDiffer(all) {
      forall other | other in ms ensures other.key != m.key {
        var i :| 0 <= i < |ms| && ms[i] == other;
        assert all[i].key != all[|ms|].key;
      }
    }
    if CasesDiffer(ms) && forall other :: other in ms ==> other.key != m.key {
      forall i, j | 0 <= i < j < |all| ensures all[i].key != all[j].key {
        assert all[i] == ms[i] && ms[i] in ms;
      }
    }
  }

  /** A list of mappings is accepted exactly if no case is mapped twice and each mapping would be
      accepted alone; their order does not matter. */
  lemma {:induction false} MappingsByFields(t: Tables, ms: seq<Mapping>)
    ensures AddMappings(t, ms).Some? <==> CasesDiffer(ms) && forall m :: m in ms ==> MappingOk(t, m)
  {
    hide MappingOk, Filed, CasesDiffer, AddMapping;
    if ms == [] {
      NoCases();
    } else {
      var n := |ms| - 1;
      var front := ms[..n];
      MappingsByFields(t, front);
      assert ms == front + [ms[n]];
      OneMoreCase(front, ms[n]);
      if AddMappings(t, front).Some? {
        TablesByMappings(t, front);
        LaterIsOk(t, AddMappings(t, front).value, ms[n]);
        if MappingOk(t, ms[n]) {
          MappedOnce(t, ms[n]);
        }
      }
    }
  }

  lemma NoCases()
    ensures CasesDiffer([])
  {
  }

  /** Tables with the same entries and more mappings accept what they have not mapped. */
  lemma LaterIsOk(t: Tables, u: Tables, m: Mapping)
    requires u.surfaces == t.surfaces && u.requirements == t.requirements && u.cases == t.cases
    requires forall key :: key in t.mapping ==> key in u.mapping
    ensures MappingOk(u, m) <==> MappingOk(t, m) && m.key !in u.mapping
  {
    assert SurfacesOf(u, IdsOf(m.requirements)) == SurfacesOf(t, IdsOf(m.requirements));
    assert forall id :: Covers(u, m.key, id) <==> Covers(t, m.key, id);
    assert forall id :: Assertable(u, m.key, id) <==> Assertable(t, m.key, id);
    hide SurfacesOf, Covers, Assertable, KeysOf, IdsOf;
    assert forall pair :: EquivalentOk(u, m, pair) <==> EquivalentOk(t, m, pair);
  }
}
