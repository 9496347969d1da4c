/** The inputs of a build file do not depend on the order of its statements. */
module MesonLaws {
  import opened Sequences
  import opened Options
  import opened Splitter
  import opened Meson
  import opened MesonInputs
  import opened MesonText
  import opened MesonCalls

  // ---------------------------------------------------------------------------
  // Collecting and counting

  lemma {:induction false} DefinitionsWithout(ss: seq<string>, i: nat, name: string, word: char -> bool)
    requires i < |ss|
    ensures multiset(Definitions(ss, name, word)) ==
            multiset(Definitions(Without(ss, i), name, word)) + multiset(DefinitionIn(ss[i], name, word))
  {
    hide Definitions, DefinitionIn;
    var n := |ss| - 1;
    assert ss == ss[..n] + [ss[n]];
    DefinitionsOfLast(ss[..n], ss[n], name, word);
    if i == n {
      assert Without(ss, i) == ss[..n];
    } else {
      DefinitionsWithout(ss[..n], i, name, word);
      assert Without(ss, i) == Without(ss[..n], i) + [ss[n]];
      DefinitionsOfLast(Without(ss[..n], i), ss[n], name, word);
    }
  }

  lemma {:induction false} DefinitionsPermute(a: seq<string>, b: seq<string>, name: string, word: char -> bool)
    requires Permuted(a, b)
    ensures Permuted(Definitions(a, name, word), Definitions(b, name, word))
  {
    hide Definitions, DefinitionIn;
    if a == [] {
      PermutedMembers(a, b);
      assert b == [];
    } else {
      var n := |a| - 1;
      var i := FindLast(a, b);
      DefinitionsPermute(a[..n], Without(b, i), name, word);
      DefinitionsWithout(a, n, name, word);
      DefinitionsWithout(b, i, name, word);
      assert Without(a, n) == a[..n];
    }
  }

  lemma {:induction false} TallyWithout(ss: seq<string>, i: nat, p: string -> bool)
    requires i < |ss|
    ensures Tally(ss, p) == Tally(Without(ss, i), p) + (if p(ss[i]) then 1 else 0)
  {
    var n := |ss| - 1;
    if i == n {
      assert Without(ss, i) == ss[..n];
    } else {
      TallyWithout(ss[..n], i, p);
      assert Without(ss, i)[..n - 1] == Without(ss[..n], i) && Without(ss, i)[n - 1] == ss[n] && ss[..n][i] == ss[i];
    }
  }

  lemma {:induction false} TallyPermutes(a: seq<string>, b: seq<string>, p: string -> bool)
    requires Permuted(a, b)
    ensures Tally(a, p) == Tally(b, p)
  {
    hide Tally;
    if a == [] {
      PermutedMembers(a, b);
      assert b == [];
    } else {
      var n := |a| - 1;
      var i := FindLast(a, b);
      TallyPermutes(a[..n], Without(b, i), p);
      TallyWithout(a, n, p);
      TallyWithout(b, i, p);
      assert Without(a, n) == a[..n];
    }
  }

  // ---------------------------------------------------------------------------
  // Order

  lemma SameNames(a: seq<string>, b: seq<string>, word: char -> bool)
    requires Permuted(a, b)
    ensures SourceNames(a, word) == SourceNames(b, word)
  {
    hide AssignmentOf, EndsWith;
    PermutedMembers(a, b);
    NamesByMember(a, word);
    NamesByMember(b, word);
  }

  lemma NamesByMember(a: seq<string>, word: char -> bool)
    ensures forall name :: name in SourceNames(a, word) <==> exists s :: s in a && NamesList(s, name, word)
  {
    hide AssignmentOf, EndsWith;
    forall name ensures name in SourceNames(a, word) <==> exists s :: s in a && NamesList(s, name, word) {
      if name in SourceNames(a, word) {
        var i :| 0 <= i < |a| && NamesList(a[i], name, word);
      }
      if s :| s in a && NamesList(s, name, word) {
        var i :| 0 <= i < |a| && a[i] == s;
      }
    }
  }

  predicate NamesList(s: string, name: string, word: char -> bool) {
    AssignmentOf(s, word).Some? && AssignmentOf(s, word).value.name == name && EndsWith(name, "sources")
  }

  /** Reordered definitions are acceptable exactly if the plain assignment still comes first. */
  lemma {:induction false} DefinitionsInOrder(a: seq<Definition>, b: seq<Definition>, digit: char -> bool)
    requires Permuted(a, b) && DefinitionsOk(a, digit)
    ensures DefinitionsOk(b, digit) <==> !b[0].appended
    ensures DefinedSources(a, digit) == DefinedSources(b, digit)
  {
    hide Parse, Denotes;
    PermutedMembers(a, b);
    forall x ensures x in DefinedSources(a, digit) <==> x in DefinedSources(b, digit) {
      DefinedByMember(a, digit, x);
      DefinedByMember(b, digit, x);
    }
    forall i | 0 <= i < |b| ensures Parse(b[i].value, {}, digit).Some? && (b[i].appended || b[i] == a[0]) {
      assert b[i] in a;
    }
    if !b[0].appended {
      PlainOnce(a);
      forall i | 1 <= i < |b| ensures b[i].appended {
        if b[i] == a[0] {
          TwiceCounts(b, 0, i);
        }
      }
    }
  }

  lemma DefinedByMember(a: seq<Definition>, digit: char -> bool, x: string)
    ensures x in DefinedSources(a, digit) <==>
              exists d :: d in a && Parse(d.value, {}, digit).Some? && x in Denotes(Parse(d.value, {}, digit).value)
  {
    hide Parse, Denotes;
  }

  lemma PlainOnce(a: seq<Definition>)
    requires a != [] && !a[0].appended && forall i :: 1 <= i < |a| ==> a[i].appended
    ensures multiset(a)[a[0]] == 1
  {
    assert a == [a[0]] + a[1..];
    assert a[0] !in a[1..];
    assert multiset(a[1..])[a[0]] == 0;
  }

  lemma {:induction false} SameHeaders(a: seq<Definition>, b: seq<Definition>)
    requires Permuted(a, b) && HeadersOf(a).Some?
    ensures a == b
  {
    PermutedMembers(a, b);
    assert a == [a[0]] && b == [b[0]] && b[0] in b;
  }

  ghost predicate CalledIn(a: seq<string>, references: set<string>, word: char -> bool, digit: char -> bool,
                           x: string) {
    exists s :: s in a && x in CalledSources(s, references, word, digit)
  }

  lemma {:induction false} SameCalled(a: seq<string>, b: seq<string>, references: set<string>, word: char -> bool,
                                      digit: char -> bool, x: string)
    requires Permuted(a, b)
    ensures CalledIn(a, references, word, digit, x) <==> CalledIn(b, references, word, digit, x)
  {
    hide CalledSources;
    PermutedMembers(a, b);
  }

  lemma CSourcesByMember(ss: seq<string>, word: char -> bool, digit: char -> bool, x: string)
    ensures x in CSources(ss, word, digit) <==>
              (exists name :: name in SourceNames(ss, word) && x in DefinedSources(Definitions(ss, name, word), digit))
              || CalledIn(ss, References(ss, word), word, digit, x)
  {
    hide DefinedSources, CalledSources, Definitions, SourceNames;
  }

  lemma {:induction false} SameCSources(a: seq<string>, b: seq<string>, word: char -> bool, digit: char -> bool)
    requires Permuted(a, b)
    requires forall name :: name in SourceNames(a, word) ==> DefinitionsOk(Definitions(a, name, word), digit)
    ensures CSources(a, word, digit) == CSources(b, word, digit)
  {
    hide DefinitionsOk, DefinedSources, CalledSources, CalledIn, CSources, Permuted, Definitions, SourceNames;
    SameNames(a, b, word);
    forall name | name in SourceNames(a, word)
      ensures DefinedSources(Definitions(a, name, word), digit) == DefinedSources(Definitions(b, name, word), digit)
    {
      DefinitionsPermute(a, b, name, word);
      DefinitionsInOrder(Definitions(a, name, word), Definitions(b, name, word), digit);
    }
    forall x ensures x in CSources(a, word, digit) <==> x in CSources(b, word, digit) {
      SameCalled(a, b, References(a, word), word, digit, x);
      CSourcesByMember(a, word, digit, x);
      CSourcesByMember(b, word, digit, x);
    }
  }

  /** Each source list is assigned before it is extended. */
  predicate AssignedFirst(ss: seq<string>, word: char -> bool) {
    forall name :: name in SourceNames(ss, word) ==>
      Definitions(ss, name, word) != [] && !Definitions(ss, name, word)[0].appended
  }

  lemma {:induction false} SupportedInOrder(a: seq<string>, b: seq<string>, installs: nat, libraries: nat,
                                            word: char -> bool, digit: char -> bool)
    requires Permuted(a, b) && Supported(a, installs, libraries, word, digit)
    ensures Supported(b, installs, libraries, word, digit) <==> AssignedFirst(b, word)
    ensures HeadersOf(Definitions(b, "public_headers", word)) == HeadersOf(Definitions(a, "public_headers", word))
    ensures CSources(b, word, digit) == CSources(a, word, digit)
  {
    hide Permuted, DefinitionsOk, DefinedSources, CalledSources, CallsOk, Definitions, SourceNames, HeadersOf, Tally,
      CSources, InstallerOf, LibraryOf;
    SameNames(a, b, word);
    SameCSources(a, b, word, digit);
    DefinitionsPermute(a, b, "public_headers", word);
    SameHeaders(Definitions(a, "public_headers", word), Definitions(b, "public_headers", word));
    TallyPermutes(a, b, Installs);
    TallyPermutes(a, b, Declares(word));
    PermutedMembers(a, b);
    forall i | 0 <= i < |b| ensures CallsOk(b[i], References(b, word), word, digit) {
      assert b[i] in a;
    }
    forall name | name in SourceNames(b, word)
      ensures Definitions(b, name, word) != []
      ensures DefinitionsOk(Definitions(b, name, word), digit) <==> !Definitions(b, name, word)[0].appended
    {
      DefinitionsPermute(a, b, name, word);
      NotEmptied(Definitions(a, name, word), Definitions(b, name, word), digit);
      DefinitionsInOrder(Definitions(a, name, word), Definitions(b, name, word), digit);
    }
  }

  lemma NotEmptied(a: seq<Definition>, b: seq<Definition>, digit: char -> bool)
    requires Permuted(a, b) && DefinitionsOk(a, digit)
    ensures b != []
  {
    PermutedMembers(a, b);
  }

  // ---------------------------------------------------------------------------
  // The text

  /** No statement ends with a function name whose call the next one would open. */
  predicate NeighboursApart(ss: seq<string>, word: char -> bool) {
    Apart(ss, INSTALL, word) && Apart(ss, LIBRARY, word)
  }

  /** No statement shows more calls than it makes. */
  predicate AllDirect(ss: seq<string>, word: char -> bool) {
    && (forall i :: 0 <= i < |ss| ==> Direct(ss[i], INSTALL, Installs, word))
    && forall i :: 0 <= i < |ss| ==> Direct(ss[i], LIBRARY, Declares(word), word)
  }

  lemma CountsAreTallies(clean: string, ss: seq<string>, word: char -> bool)
    requires Letters(word) && Split(clean, '\n') == Some(ss)
    ensures Calls(clean, INSTALL, word) == Tally(ss, Installs)
            && Calls(clean, LIBRARY, word) == Tally(ss, Declares(word))
       <==> NeighboursApart(ss, word) && AllDirect(ss, word)
  {
    hide Split, Calls, Tally, Apart, Direct, InstallerOf, LibraryOf;
    CallNames();
    forall s | Installs(s) ensures Calls(s, INSTALL, word) >= 1 {
      InstallationIsCall(s, word);
    }
    forall s | Declares(word)(s) ensures Calls(s, LIBRARY, word) >= 1 {
      LibraryIsCall(s, word);
    }
    CallsOfStatements(clean, ss, INSTALL, Installs, word);
    CallsOfStatements(clean, ss, LIBRARY, Declares(word), word);
  }

  /** A text is accepted by what its statements are and which are neighbours. */
  lemma {:induction false} AcceptedByStatements(clean: string, word: char -> bool, digit: char -> bool)
    requires Letters(word)
    ensures Accepted(clean, word, digit) <==>
              && Split(clean, '\n').Some?
              && var ss := Split(clean, '\n').value;
                 && Supported(ss, Tally(ss, Installs), Tally(ss, Declares(word)), word, digit)
                 && NeighboursApart(ss, word) && AllDirect(ss, word)
  {
    hide Split, Calls, Tally, NeighboursApart, AllDirect, HeadersOf, Definitions, SourceNames, DefinitionsOk, CallsOk,
      CSources;
    if Split(clean, '\n').Some? {
      CountsAreTallies(clean, Split(clean, '\n').value, word);
    }
  }

  lemma DirectPermutes(a: seq<string>, b: seq<string>, word: char -> bool)
    requires Permuted(a, b)
    ensures AllDirect(a, word) <==> AllDirect(b, word)
  {
    hide Direct;
    PermutedMembers(a, b);
    forall s ensures s in a <==> s in b {
    }
    if AllDirect(a, word) {
      forall i | 0 <= i < |b|
        ensures Direct(b[i], INSTALL, Installs, word) && Direct(b[i], LIBRARY, Declares(word), word)
      {
        assert b[i] in a;
      }
    }
    if AllDirect(b, word) {
      forall i | 0 <= i < |a|
        ensures Direct(a[i], INSTALL, Installs, word) && Direct(a[i], LIBRARY, Declares(word), word)
      {
        assert a[i] in b;
      }
    }
  }

  /** Reordering the statements of an accepted build file changes neither its headers nor its sources.
      It stays accepted exactly if each source list is still assigned before it is extended and no
      statement that ends with the name of a call comes before one that begins with a parenthesis. */
  lemma {:induction false} StatementOrderIsImmaterial(a: string, b: string, word: char -> bool, digit: char -> bool)
    requires Letters(word) && Accepted(a, word, digit) && Split(b, '\n').Some?
    requires Permuted(Split(a, '\n').value, Split(b, '\n').value)
    ensures var ss, ts := Split(a, '\n').value, Split(b, '\n').value;
            && (Accepted(b, word, digit) <==> AssignedFirst(ts, word) && NeighboursApart(ts, word))
            && HeadersOf(Definitions(ts, "public_headers", word)) == HeadersOf(Definitions(ss, "public_headers", word))
            && CSources(ts, word, digit) == CSources(ss, word, digit)
  {
    var ss, ts := Split(a, '\n').value, Split(b, '\n').value;
    hide Split, Supported, Tally, NeighboursApart, AllDirect, Permuted, AssignedFirst, HeadersOf, Definitions, CSources;
    AcceptedByStatements(a, word, digit);
    AcceptedByStatements(b, word, digit);
    TallyPermutes(ss, ts, Installs);
    TallyPermutes(ss, ts, Declares(word));
    SupportedInOrder(ss, ts, Tally(ss, Installs), Tally(ss, Declares(word)), word, digit);
    DirectPermutes(ss, ts, word);
  }

  /** If no statement begins with a parenthesis, only the order of the definitions matters. */
  lemma {:induction false} OrderOfDefinitionsMatters(a: string, b: string, word: char -> bool, digit: char -> bool)
    requires Letters(word) && Accepted(a, word, digit) && Split(b, '\n').Some?
    requires Permuted(Split(a, '\n').value, Split(b, '\n').value)
    requires forall s :: s in Split(a, '\n').value ==> s == "" || s[0] != '('
    ensures Accepted(b, word, digit) <==> AssignedFirst(Split(b, '\n').value, word)
  {
    hide Split, Supported, Calls, AssignedFirst, HeadersOf, Definitions, CSources, Dangles;
    StatementOrderIsImmaterial(a, b, word, digit);
    PermutedMembers(Split(a, '\n').value, Split(b, '\n').value);
    var ts := Split(b, '\n').value;
    forall i | 0 <= i < |ts| ensures ts[i] == "" || ts[i][0] != '(' {
      assert ts[i] in Split(a, '\n').value;
    }
  }
}
