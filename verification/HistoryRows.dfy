/** Rows of a history as they are written: their columns, their labels and the installation they name. */
module HistoryRows {
  import opened Options
  import opened Text
  import opened WordSplit
  import opened History
  import opened HistoryLaws

  // ---------------------------------------------------------------------------
  // Labels

  /** What may stand between the words of a label. */
  predicate IsGap(s: string) { forall k :: 0 <= k < |s| ==> s[k] == '-' || IsSpace(s[k]) }

  /** The word alone, with gaps around it. */
  ghost predicate Spells(s: string, w: string) {
    exists before: string, behind: string :: IsGap(before) && IsGap(behind) && s == before + w + behind
  }

  /** The word behind another one, with a gap between them. */
  ghost predicate SpellsBehind(s: string, d: string, w: string) {
    exists before: string, rest: string ::
      && IsGap(before) && s == before + d + rest
      && rest != "" && (rest[0] == '-' || IsSpace(rest[0])) && Spells(rest, w)
  }

  function Concept(w: string): string {
    if w in {"install", "installed", "installation"} then "install"
    else if w in {"update", "updated"} then "update"
    else if w in {"uninstall", "uninstalled", "remove", "removed", "removal"} then "uninstall"
    else ""
  }

  lemma ConceptIsAlias(w: string)
    ensures Alias(w) == if Concept(w) == "" then None else Some(Concept(w))
    ensures DEPLOYMENT == {"deploy", "deployed", "deployment"}
  {
    assert INSTALLS == {"install", "installed", "installation"} && UPDATES == {"update", "updated"};
    assert UNINSTALLS == {"uninstall", "uninstalled", "remove", "removed", "removal"};
  }

  lemma {:induction false} BlanksKeepPlaces(s: string)
    ensures |Blanks(s)| == |s| && forall k :: 0 <= k < |s| ==> Blanks(s)[k] == if s[k] == '-' then ' ' else s[k]
  {
    if s != "" {
      BlanksKeepPlaces(s[1..]);
    }
  }

  lemma GapIsSpace(s: string)
    ensures IsGap(s) <==> AllSpace(Blanks(s))
  {
    BlanksKeepPlaces(s);
    hide IsSpace;
    assert IsSpace(' ') by {
      BlankIsSpace();
    }
  }

  lemma BlankIsSpace()
    ensures IsSpace(' ')
  {
  }

  lemma {:induction false} BlanksOf(a: string, b: string)
    ensures Blanks(a + b) == Blanks(a) + Blanks(b)
  {
    if a == "" {
      assert a + b == b;
    } else {
      assert (a + b)[1..] == a[1..] + b;
      BlanksOf(a[1..], b);
    }
  }

  predicate Dashless(w: string) { forall k :: 0 <= k < |w| ==> w[k] != '-' }

  lemma DashlessStays(w: string)
    requires Dashless(w)
    ensures Blanks(w) == w
  {
    BlanksKeepPlaces(w);
  }

  lemma {:induction false} NoWords(s: string)
    ensures Words(s) == [] <==> AllSpace(s)
  {
    hide IsSpace;
    if s != "" {
      NoWords(s[1..]);
      assert AllSpace(s) <==> IsSpace(s[0]) && AllSpace(s[1..]);
    }
  }

  /** The first word, and what stands before and behind it. */
  lemma {:induction false} FirstWord(s: string) returns (before: string, behind: string)
    requires Words(s) != []
    ensures AllSpace(before) && s == before + Words(s)[0] + behind && Words(behind) == Words(s)[1..]
    ensures behind != "" ==> IsSpace(behind[0])
    decreases |s|
  {
    if IsSpace(s[0]) {
      var b, rest := FirstWord(s[1..]);
      hide IsSpace, Run;
      SpaceThenWord(s[0], b, Words(s)[0], rest);
      before, behind := [s[0]] + b, rest;
      assert s == [s[0]] + s[1..];
    } else {
      hide IsSpace;
      before, behind := "", s[Run(s)..];
      assert s == "" + s[..Run(s)] + s[Run(s)..];
      assert ([s[..Run(s)]] + Words(behind))[1..] == Words(behind);
    }
  }

  lemma SpaceThenWord(c: char, before: string, w: string, behind: string)
    ensures [c] + (before + w + behind) == ([c] + before) + w + behind
  {
  }

  lemma {:induction false} WordsPastSpace(before: string, s: string)
    requires AllSpace(before)
    ensures Words(before + s) == Words(s)
    decreases |before|
  {
    hide IsSpace;
    if before == "" {
      assert before + s == s;
    } else {
      assert (before + s)[0] == before[0] && (before + s)[1..] == before[1..] + s;
      WordsPastSpace(before[1..], s);
    }
  }

  lemma WordFirst(before: string, w: string, behind: string)
    requires AllSpace(before) && IsWord(w) && (behind != "" ==> IsSpace(behind[0]))
    ensures Words(before + w + behind) == [w] + Words(behind)
  {
    hide IsSpace;
    assert before + w + behind == before + (w + behind);
    WordsPastSpace(before, w + behind);
    RunOf(w, behind);
    assert (w + behind)[0] == w[0] && (w + behind)[..|w|] == w && (w + behind)[|w|..] == behind;
  }

  lemma OneWord(s: string, w: string)
    requires IsWord(w) && Dashless(w)
    ensures Words(Blanks(s)) == [w] <==> Spells(s, w)
  {
    hide IsSpace, IsWord, Dashless;
    if Words(Blanks(s)) == [w] {
      var before, behind := FirstWord(Blanks(s));
      assert [w][1..] == [];
      NoWords(behind);
      var gap, rest := WordStands(s, before, w, behind);
      GapIsSpace(rest);
    }
    if Spells(s, w) {
      var before, behind :| IsGap(before) && IsGap(behind) && s == before + w + behind;
      BlanksOf(before + w, behind);
      BlanksOf(before, w);
      DashlessStays(w);
      GapIsSpace(before);
      GapIsSpace(behind);
      BlanksKeepPlaces(behind);
      WordFirst(Blanks(before), w, Blanks(behind));
      NoWords(Blanks(behind));
      assert [w] + [] == [w];
    }
  }

  lemma SameStretch(s: string, i: nat, j: nat, w: string)
    requires i <= j <= |s| && |Blanks(s)| == |s| && Blanks(s)[i..j] == w && IsWord(w)
    ensures s[i..j] == w
  {
    BlanksKeepPlaces(s);
    BlankIsSpace();
    hide IsSpace;
    forall k | 0 <= k < |w| ensures s[i..j][k] == w[k] {
      assert Blanks(s)[i + k] == w[k];
    }
  }

  lemma PartIsGap(s: string, i: nat, j: nat)
    requires i <= j <= |s| && |Blanks(s)| == |s|
    ensures AllSpace(Blanks(s)[i..j]) <==> IsGap(s[i..j])
  {
    BlanksKeepPlaces(s);
    BlankIsSpace();
    hide IsSpace;
    var t, b := s[i..j], Blanks(s)[i..j];
    assert forall k :: 0 <= k < j - i ==> b[k] == if t[k] == '-' then ' ' else t[k];
  }

  /** A word of the blanked text stands in the text, behind a gap. */
  lemma WordStands(s: string, before: string, w: string, behind: string) returns (gap: string, rest: string)
    requires Blanks(s) == before + w + behind && AllSpace(before) && IsWord(w)
    ensures IsGap(gap) && s == gap + w + rest && Blanks(rest) == behind
  {
    BlanksKeepPlaces(s);
    var i, j := |before|, |before| + |w|;
    hide IsSpace, IsWord, Blanks;
    assert Blanks(s)[i..j] == w && Blanks(s)[0..i] == before && Blanks(s)[j..] == behind;
    SameStretch(s, i, j, w);
    PartIsGap(s, 0, i);
    BlanksBehind(s, j);
    gap, rest := s[0..i], s[j..];
    assert s == s[0..i] + s[i..j] + s[j..];
  }

  lemma TwoWordsSpell(s: string, d: string, w: string)
    requires IsWord(w) && Dashless(w) && IsWord(d) && Words(Blanks(s)) == [d, w]
    ensures SpellsBehind(s, d, w)
  {
    var before, behind := FirstWord(Blanks(s));
    hide IsSpace, IsWord, Dashless, Spells, Blanks, Words, IsGap;
    var gap, rest := WordStands(s, before, d, behind);
    assert [d, w][1..] == [w];
    OneWord(rest, w);
    SpellingIsSomething(rest, w);
    BlanksKeepPlaces(rest);
    assert behind[0] == Blanks(rest)[0];
  }

  lemma BlanksBehind(s: string, j: nat)
    requires j <= |s| == |Blanks(s)|
    ensures Blanks(s)[j..] == Blanks(s[j..])
  {
    BlanksKeepPlaces(s);
    BlanksKeepPlaces(s[j..]);
  }

  lemma SpelledIsTwoWords(s: string, d: string, w: string)
    requires IsWord(w) && Dashless(w) && IsWord(d) && Dashless(d) && SpellsBehind(s, d, w)
    ensures Words(Blanks(s)) == [d, w]
  {
    var before: string, rest: string :|
      && IsGap(before) && s == before + d + rest
      && rest != "" && (rest[0] == '-' || IsSpace(rest[0])) && Spells(rest, w);
    BlankIsSpace();
    hide IsSpace, IsWord, Dashless, Spells, Blanks, Words;
    OneWord(rest, w);
    BlanksOf(before + d, rest);
    BlanksOf(before, d);
    DashlessStays(d);
    GapIsSpace(before);
    BlanksKeepPlaces(rest);
    WordFirst(Blanks(before), d, Blanks(rest));
    assert [d] + [w] == [d, w];
  }

  lemma SpellingIsSomething(s: string, w: string)
    requires Spells(s, w) && IsWord(w)
    ensures s != ""
  {
  }

  /** The label, with its letters folded, names the concept: it spells a word for it, alone or behind a
      word for deployment. */
  ghost predicate Names(change: string, concept: string) {
    exists w: string :: Concept(w) == concept &&
      (Spells(change, w) || SpellsBehind(change, "deploy", w) || SpellsBehind(change, "deployed", w)
       || SpellsBehind(change, "deployment", w))
  }

  lemma PrefixesAreWords()
    ensures forall d :: d in {"deploy", "deployed", "deployment"} ==> AllLower(d)
  {
  }

  lemma LowerIsWord(w: string)
    requires AllLower(w)
    ensures IsWord(w) && Dashless(w)
  {
    forall k | 0 <= k < |w| ensures !IsSpace(w[k]) && w[k] != '-' {
      assert IsLower(w[k]);
    }
  }

  lemma ConceptsAreLower(w: string)
    requires Concept(w) != ""
    ensures AllLower(w)
  {
    InstallsAreLower();
    UpdatesAreLower();
    UninstallsAreLower();
    assert INSTALLS == {"install", "installed", "installation"} && UPDATES == {"update", "updated"};
    assert UNINSTALLS == {"uninstall", "uninstalled", "remove", "removed", "removal"};
  }

  /** A label records a step exactly if it names the step's concept. */
  lemma {:induction false} ChangeByText(fold: string -> string, text: string, concept: string)
    requires concept != ""
    ensures Change(fold, text) == Some(concept) <==> Names(fold(text), concept)
  {
    var change := fold(text);
    var words := Words(Blanks(change));
    PrefixesAreWords();
    hide IsSpace, AllLower, Concept, Spells, SpellsBehind, Alias, Words, Blanks;
    if Change(fold, text) == Some(concept) {
      var w := Join(Labelled(words));
      ConceptIsAlias(w);
      ChangeIsOneWord(fold, text, w);
      ConceptsAreLower(w);
      LowerIsWord(w);
      if words == [w] {
        OneWord(change, w);
      } else {
        var d :| d in DEPLOYMENT && words == [d, w];
        LowerIsWord(d);
        TwoWordsSpell(change, d, w);
      }
    }
    if Names(fold(text), concept) {
      var w: string :| Concept(w) == concept &&
        (Spells(change, w) || SpellsBehind(change, "deploy", w) || SpellsBehind(change, "deployed", w)
         || SpellsBehind(change, "deployment", w));
      ConceptIsAlias(w);
      ConceptsAreLower(w);
      LowerIsWord(w);
      ChangeIsOneWord(fold, text, w);
      if Spells(change, w) {
        OneWord(change, w);
      } else {
        var d: string :| d in {"deploy", "deployed", "deployment"} && SpellsBehind(change, d, w);
        LowerIsWord(d);
        SpelledIsTwoWords(change, d, w);
        assert d in DEPLOYMENT;
      }
    }
  }

  // ---------------------------------------------------------------------------
  // Rows

  lemma {:induction false} FieldsFirst(part: string, rest: string)
    requires '\t' !in part
    ensures Fields(part + "\t" + rest) == [part] + Fields(rest)
    decreases |part|
  {
    var s := part + "\t" + rest;
    if part == "" {
      assert s[0] == '\t' && s[1..] == rest;
    } else {
      assert s[0] == part[0] && s[1..] == part[1..] + "\t" + rest && '\t' !in part[1..];
      FieldsFirst(part[1..], rest);
      assert ([part[1..]] + Fields(rest))[1..] == Fields(rest);
      assert [part[0]] + part[1..] == part;
    }
  }

  lemma {:induction false} FieldsLast(part: string)
    requires '\t' !in part
    ensures Fields(part) == [part]
    decreases |part|
  {
    if part != "" {
      FieldsLast(part[1..]);
      assert [part[0]] + part[1..] == part;
    }
  }

  /** A row of three columns. */
  predicate Columns(row: string, source: string, ref: string, change: string) {
    '\t' !in source && '\t' !in ref && '\t' !in change && row == source + "\t" + (ref + "\t" + change)
  }

  lemma ThreeColumns(row: string, source: string, ref: string, change: string)
    requires '\t' !in source && '\t' !in ref && '\t' !in change
    ensures Columns(row, source, ref, change) <==> Fields(row) == [source, ref, change]
  {
    hide Fields;
    if Columns(row, source, ref, change) {
      FieldsLast(change);
      FieldsFirst(ref, change);
      FieldsFirst(source, ref + "\t" + change);
    }
    if Fields(row) == [source, ref, change] {
      FieldsRebuild(row);
      var fs := [source, ref, change];
      assert fs[1..] == [ref, change] && [ref, change][1..] == [change];
      assert Tabbed([change]) == change && Tabbed([ref, change]) == ref + "\t" + change;
    }
  }

  /** The column names the installation: by itself, in the wrapper or as the default. */
  predicate NamesStore(source: string, installation: string) {
    || source == "system (" + installation + ")"
    || (source == "default" && installation == "system")
    || (source == installation && source != "default" && !IsWrapped(source))
  }

  predicate IsWrapped(source: string) {
    |source| >= 9 && source[..8] == "system (" && source[|source| - 1] == ')'
  }

  lemma StoreByText(source: string, installation: string)
    ensures Store(source) == installation <==> NamesStore(source, installation)
  {
    var wrapped := "system (" + installation + ")";
    assert wrapped[..8] == "system (" && wrapped[8..|wrapped| - 1] == installation;
    if IsWrapped(source) {
      assert source == "system (" + source[8..|source| - 1] + ")";
      assert source[0] == 's';
    }
  }

  /** The columns are of the selected installation, or record no step at a place named by its path. */
  ghost predicate IsOf(source: string, change: string, installation: string) {
    || NamesStore(source, installation)
    || ((forall concept :: concept != "" ==> !Names(change, concept)) && IsPlace(source))
  }

  ghost predicate IsPlace(source: string) {
    exists path: string :: path != "" && path[0] == '/' && NamesStore(source, path)
  }

  lemma PlaceByText(source: string)
    ensures IsAbsolute(Store(source)) <==> IsPlace(source)
  {
    hide Store, NamesStore;
    StoreByText(source, Store(source));
    forall path: string ensures Store(source) == path <==> NamesStore(source, path) {
      StoreByText(source, path);
    }
  }

  lemma NoChange(fold: string -> string, change: string)
    ensures Change(fold, change).None? <==> forall concept :: concept != "" ==> !Names(fold(change), concept)
  {
    hide Change, Names;
    NothingNamed(fold, change);
    if Change(fold, change).Some? {
      ChangeByText(fold, change, Change(fold, change).value);
    }
    forall concept | concept != "" ensures Change(fold, change) == Some(concept) <==> Names(fold(change), concept) {
      ChangeByText(fold, change, concept);
    }
  }

  lemma ColumnsOk(fold: string -> string, installation: string, row: string, source: string, ref: string,
                  change: string)
    requires Fields(row) == [source, ref, change]
    ensures RowOk(fold, installation, row) <==> IsOf(source, fold(change), installation)
  {
    NoChange(fold, change);
    StoreByText(source, installation);
    PlaceByText(source);
    hide Change, Names, Store, NamesStore, Fields, IsPlace, IsAbsolute;
  }

  /** A row is acceptable exactly if it has three columns and either names the selected installation or
      records no step and names a place by its absolute path. */
  lemma {:induction false} RowByColumns(fold: string -> string, installation: string, row: string)
    ensures RowOk(fold, installation, row) <==>
              exists source: string, ref: string, change: string ::
                Columns(row, source, ref, change) && IsOf(source, fold(change), installation)
  {
    hide IsOf, Change, Store, Fields, Columns;
    if RowOk(fold, installation, row) {
      FieldsRebuild(row);
      var source, ref, change := Fields(row)[0], Fields(row)[1], Fields(row)[2];
      assert Fields(row) == [source, ref, change];
      ThreeColumns(row, source, ref, change);
      ColumnsOk(fold, installation, row, source, ref, change);
    }
    if source: string, ref: string, change: string :|
        Columns(row, source, ref, change) && IsOf(source, fold(change), installation) {
      ColumnsHaveNoTabs(row, source, ref, change);
      ThreeColumns(row, source, ref, change);
      ColumnsOk(fold, installation, row, source, ref, change);
    }
  }

  lemma ColumnsHaveNoTabs(row: string, source: string, ref: string, change: string)
    requires Columns(row, source, ref, change)
    ensures '\t' !in source && '\t' !in ref && '\t' !in change
  {
  }

  lemma NothingNamed(fold: string -> string, change: string)
    ensures Change(fold, change) != Some("")
  {
    hide Labelled, Words, Blanks;
  }

  /** The step of a row is its second column with the concept its label names. */
  lemma {:induction false} EventByColumns(fold: string -> string, row: string, source: string, ref: string,
                                          change: string, concept: string)
    requires Columns(row, source, ref, change) && concept != ""
    ensures Event(fold, row) == [(ref, concept)] <==> Names(fold(change), concept)
    ensures |Event(fold, row)| <= 1
  {
    ThreeColumns(row, source, ref, change);
    ChangeByText(fold, change, concept);
    hide Change, Names, Fields, Columns;
    if Event(fold, row) == [(ref, concept)] {
      assert Event(fold, row)[0].1 == concept;
    }
  }
}
