/** The incremental merge of option definitions equals its closed form. */
module OptionLaws {
  import opened Sequences
  import opened Options
  import opened Ordering
  import opened Surfaces

  lemma {:induction false} LongsElements(names: seq<string>)
    ensures forall x :: x in Longs(names) <==> x in names && IsLong(x)
    ensures Distinct(names) ==> Distinct(Longs(names))
  {
    if names != [] {
      var init, last := names[..|names| - 1], names[|names| - 1];
      LongsElements(init);
      assert names == init + [last];
      assert Distinct(names) ==> Distinct(init) && last !in init;
    }
  }

  lemma {:induction false} ShortsElements(names: seq<string>)
    ensures forall x :: x in Shorts(names) <==> x in names && !IsLong(x)
  {
    if names != [] {
      ShortsElements(names[..|names| - 1]);
      assert names == names[..|names| - 1] + [names[|names| - 1]];
    }
  }

  lemma {:induction false} OthersElements(names: seq<string>, name: string)
    ensures forall x :: x in Others(names, name) <==> x in names && x != name
  {
    if names != [] {
      OthersElements(names[..|names| - 1], name);
      assert names == names[..|names| - 1] + [names[|names| - 1]];
    }
  }

  lemma {:induction false} NamesElements(matches: seq<string>)
    ensures Distinct(Names(matches)) && forall x :: x in Names(matches) <==> x in matches
  {
    if matches != [] {
      NamesElements(matches[..|matches| - 1]);
      assert matches == matches[..|matches| - 1] + [matches[|matches| - 1]];
    }
  }

  lemma EntryLongsDistinct(e: Entry)
    ensures Distinct(EntryLongs(e))
  {
    NamesElements(e.matches);
    LongsElements(Names(e.matches));
  }

  lemma {:induction false} ExtendElements(sources: seq<Source>, more: seq<Source>)
    ensures forall x :: x in Extend(sources, more) <==> x in sources || x in more
    ensures Distinct(sources) ==> Distinct(Extend(sources, more))
  {
    if more != [] {
      ExtendElements(sources, more[..|more| - 1]);
      assert more == more[..|more| - 1] + [more[|more| - 1]];
    }
  }

  // ---------------------------------------------------------------------------
  // One entry

  lemma OptionIdInjective(command: string, a: string, b: string)
    requires OptionId(command, a) == OptionId(command, b)
    ensures a == b
  {
    var prefix := "cli.option." + command + ".";
    assert (prefix + a)[|prefix|..] == a && (prefix + b)[|prefix|..] == b;
  }

  /** Merging distinct names updates each of their entries once and no other. */
  lemma {:induction false} MergeNamesLookup(s: State, c: Context, e: Entry, names: seq<string>, n: string)
    requires Distinct(names)
    ensures var t := MergeNames(s, c, e, names);
            var id := OptionId(c.command, n);
            && (forall o: string ::
                 Occurrences(t, o, n) == Occurrences(s, o, n) + (if o == e.origin && n in names then 1 else 0))
            && Find(t.surfaces, id) == (if n !in names then Find(s.surfaces, id)
                 else Some(Updated(Find(s.surfaces, id), c, e, n, Occurrences(s, e.origin, n) + 1)))
            && (n in t.spellings <==> n in s.spellings || (n in names && id !in s.surfaces))
  {
    hide Updated, OptionId;
    if names != [] {
      var init, last := names[..|names| - 1], names[|names| - 1];
      MergeNamesLookup(s, c, e, init, n);
      assert names == init + [last] && last !in init;
      if n != last && OptionId(c.command, n) == OptionId(c.command, last) {
        OptionIdInjective(c.command, n, last);
      }
    }
  }

  /** Entries of other options and interfaces are untouched. */
  lemma {:induction false} MergeNamesFrame(s: State, c: Context, e: Entry, names: seq<string>, id: string)
    requires forall n :: n in names ==> id != OptionId(c.command, n)
    ensures Find(MergeNames(s, c, e, names).surfaces, id) == Find(s.surfaces, id)
  {
    hide Updated, OptionId;
    if names != [] {
      var init := names[..|names| - 1];
      assert names == init + [names[|names| - 1]];
      MergeNamesFrame(s, c, e, init, id);
    }
  }

  // ---------------------------------------------------------------------------
  // The closed form

  ghost predicate Defines(e: Entry, name: string) { name in EntryLongs(e) }

  ghost predicate Mentioned(entries: seq<Entry>, name: string) {
    exists e :: e in entries && Defines(e, name)
  }

  /** An entry with this option as its only long spelling also lists the short one. */
  ghost predicate AliasOf(entries: seq<Entry>, name: string, short: string) {
    exists e :: e in entries && Defines(e, name) && |EntryLongs(e)| == 1 && short in EntryShorts(e)
  }

  /** Two long spellings of one entry. */
  ghost predicate CoListed(entries: seq<Entry>, name: string, other: string) {
    exists e :: e in entries && Defines(e, name) && Defines(e, other) && other != name
  }

  function DefinitionCount(entries: seq<Entry>, origin: string, name: string): nat {
    if entries == [] then 0
    else
      var last := entries[|entries| - 1];
      DefinitionCount(entries[..|entries| - 1], origin, name) +
      (if last.origin == origin && name in EntryLongs(last) then 1 else 0)
  }

  /** The definitions of each document are numbered from one; an entry of another
      document also leaves the document that includes it. */
  ghost predicate SourceOf(c: Context, entries: seq<Entry>, name: string, s: Source) {
    match s.anchor
    case Definition(n, nth) => n == name && 1 <= nth <= DefinitionCount(entries, s.path, name)
    case IncludedFrom(origin) =>
      s.path == c.path && origin != c.path && exists e :: e in entries && Defines(e, name) && e.origin == origin
    case _ => false
  }

  /** Lists are sorted listings without repetitions. */
  ghost predicate WellFormed(s: Surface) {
    StrictlySorted(s.aliases) && StrictlySorted(s.documentedWith) && Distinct(s.sources)
  }

  ghost predicate WasAlias(earlier: Option<Surface>, x: string) { earlier.Some? && x in earlier.value.aliases }

  ghost predicate WasDocumentedWith(earlier: Option<Surface>,
                                    x: string) { earlier.Some? && x in earlier.value.documentedWith }

  ghost predicate WasSource(earlier: Option<Surface>, x: Source) { earlier.Some? && x in earlier.value.sources }

  /** What later definitions leave as it was. */
  predicate SameHead(a: Surface, b: Surface) {
    a.kind == b.kind && a.name == b.name && a.scope == b.scope && a.sources <= b.sources
  }

  /** The entry of `name` after merging `entries`, as unions over the entries. */
  ghost predicate IsMerge(c: Context, entries: seq<Entry>, name: string, before: Option<Surface>,
                          after: Option<Surface>) {
    if !Mentioned(entries, name) then after == before
    else
      && after.Some? && WellFormed(after.value)
      && (before.None? ==> after.value.kind == CliOption && after.value.name == name && after.value.scope == c.command)
      && (before.Some? ==> SameHead(before.value, after.value))
      && (forall x :: x in after.value.aliases <==> WasAlias(before, x) || AliasOf(entries, name, x))
      && (forall x :: x in after.value.documentedWith <==> WasDocumentedWith(before, x) || CoListed(entries, name, x))
      && (forall x :: x in after.value.sources <==> WasSource(before, x) || SourceOf(c, entries, name, x))
  }

  // ---------------------------------------------------------------------------
  // One more entry

  lemma AliasStep(c: Context, entries: seq<Entry>, e: Entry, name: string, nth: nat, mid: Option<Surface>)
    requires Defines(e, name)
    ensures var u := Updated(mid, c, e, name, nth);
            StrictlySorted(u.aliases) &&
            forall x :: x in u.aliases <==> WasAlias(mid, x) || (|EntryLongs(e)| == 1 && x in EntryShorts(e))
    ensures forall x :: AliasOf(entries + [e], name, x) <==>
                        AliasOf(entries, name, x) || (|EntryLongs(e)| == 1 && x in EntryShorts(e))
  {
    hide SortedSet, StrictlySorted, EntryLongs, EntryShorts;
    assert forall f :: f in entries + [e] <==> f in entries || f == e;
    SortedSetLists(EntryShorts(e));
    SortedSetLists([]);
    NothingListed();
    if mid.Some? {
      SortedSetLists(mid.value.aliases + NewAliases(e));
    }
  }

  lemma NothingListed()
    ensures SortedSet([]) == []
  {
  }

  lemma OthersStep(c: Context, entries: seq<Entry>, e: Entry, name: string, nth: nat, mid: Option<Surface>)
    requires Defines(e, name) && (mid.Some? ==> StrictlySorted(mid.value.documentedWith))
    ensures var u := Updated(mid, c, e, name, nth);
            StrictlySorted(u.documentedWith) &&
            forall x :: x in u.documentedWith <==> WasDocumentedWith(mid, x) || (Defines(e, x) && x != name)
    ensures forall x :: CoListed(entries + [e], name, x) <==>
                        CoListed(entries, name, x) || (Defines(e, x) && x != name)
  {
    hide SortedSet, StrictlySorted, EntryLongs;
    assert forall f :: f in entries + [e] <==> f in entries || f == e;
    OthersElements(EntryLongs(e), name);
    SortedSetLists(Others(EntryLongs(e), name));
    if mid.Some? {
      SortedSetLists(mid.value.documentedWith + NewOthers(e, name));
    }
  }

  lemma DefinitionCountStep(entries: seq<Entry>, e: Entry, origin: string, name: string)
    ensures DefinitionCount(entries + [e], origin, name) ==
            DefinitionCount(entries, origin, name) + (if e.origin == origin && Defines(e, name) then 1 else 0)
  {
    hide EntryLongs;
    assert (entries + [e])[..|entries|] == entries;
  }

  lemma SourceStep(c: Context, entries: seq<Entry>, e: Entry, name: string, nth: nat, mid: Option<Surface>)
    requires Defines(e, name) && nth == DefinitionCount(entries, e.origin, name) + 1
    requires mid.Some? ==> Distinct(mid.value.sources)
    ensures var u := Updated(mid, c, e, name, nth);
            Distinct(u.sources) && forall x :: x in u.sources <==>
              WasSource(mid, x) || x in NewSources(c, e, name, nth)
    ensures forall x :: SourceOf(c, entries + [e], name, x) <==>
                        SourceOf(c, entries, name, x) || x in NewSources(c, e, name, nth)
  {
    hide EntryLongs, SortedSet, DefinitionCount, Defines, NewAliases, NewOthers;
    if mid.Some? {
      ExtendElements(mid.value.sources, NewSources(c, e, name, nth));
    }
    assert forall f :: f in entries + [e] <==> f in entries || f == e;
    forall x: Source
      ensures SourceOf(c, entries + [e], name, x) <==> SourceOf(c, entries, name, x) || x in NewSources(c, e, name, nth)
    {
      DefinitionCountStep(entries, e, x.path, name);
    }
  }

  lemma {:induction false} ExtendAppends(sources: seq<Source>, more: seq<Source>)
    ensures sources <= Extend(sources, more)
  {
    if more != [] {
      ExtendAppends(sources, more[..|more| - 1]);
    }
  }

  lemma HeadStep(c: Context, e: Entry, name: string, nth: nat, mid: Option<Surface>)
    ensures var u := Updated(mid, c, e, name, nth);
            && (mid.None? ==> u.kind == CliOption && u.name == name && u.scope == c.command)
            && (mid.Some? ==> SameHead(mid.value, u))
  {
    if mid.Some? {
      ExtendAppends(mid.value.sources, NewSources(c, e, name, nth));
    }
  }

  lemma {:induction false} MergeStep(c: Context, entries: seq<Entry>, e: Entry, name: string, nth: nat,
                                     before: Option<Surface>, mid: Option<Surface>)
    requires IsMerge(c, entries, name, before, mid) && (before.Some? ==> WellFormed(before.value))
    requires Defines(e, name) && nth == DefinitionCount(entries, e.origin, name) + 1
    ensures IsMerge(c, entries + [e], name, before, Some(Updated(mid, c, e, name, nth)))
  {
    hide Updated, SortedSet, StrictlySorted, Defines, DefinitionCount, NewSources, EntryLongs, EntryShorts, Distinct;
    HeadStep(c, e, name, nth, mid);
    AliasStep(c, entries, e, name, nth, mid);
    OthersStep(c, entries, e, name, nth, mid);
    SourceStep(c, entries, e, name, nth, mid);
    if !Mentioned(entries, name) {
      Unmentioned(c, entries, name);
    }
  }

  lemma {:induction false} UncountedIsZero(entries: seq<Entry>, origin: string, name: string)
    requires !Mentioned(entries, name)
    ensures DefinitionCount(entries, origin, name) == 0
  {
    hide EntryLongs;
    if entries != [] {
      var init, last := entries[..|entries| - 1], entries[|entries| - 1];
      assert last in entries && !Defines(last, name);
      assert forall e :: e in init ==> e in entries;
      UncountedIsZero(init, origin, name);
    }
  }

  lemma Unmentioned(c: Context, entries: seq<Entry>, name: string)
    requires !Mentioned(entries, name)
    ensures forall x :: !AliasOf(entries, name, x)
    ensures forall x :: !CoListed(entries, name, x)
    ensures forall x :: !SourceOf(c, entries, name, x)
  {
    hide Defines, EntryLongs, EntryShorts, DefinitionCount;
    forall x: Source ensures !SourceOf(c, entries, name, x) {
      UncountedIsZero(entries, x.path, name);
    }
  }

  lemma OtherEntry(c: Context, entries: seq<Entry>, e: Entry, name: string, before: Option<Surface>,
                   after: Option<Surface>)
    requires IsMerge(c, entries, name, before, after) && !Defines(e, name)
    ensures IsMerge(c, entries + [e], name, before, after)
  {
    hide Defines, EntryLongs, EntryShorts, DefinitionCount, WellFormed;
    assert forall f :: f in entries + [e] <==> f in entries || f == e;
    forall x: Source ensures SourceOf(c, entries + [e], name, x) <==> SourceOf(c, entries, name, x) {
      DefinitionCountStep(entries, e, x.path, name);
    }
  }

  /** After any entries, every option has its closed form: the aliases are the union of
      the short spellings of the entries with this one long spelling, the co-documented
      options are the union of the other long spellings listed with it, the sources are
      one for every definition, and all three lists are free of repetitions. */
  lemma {:induction false} MergeIsClosedForm(s: State, c: Context, entries: seq<Entry>, n: string)
    requires s.occurrences == map[] && forall id :: id in s.surfaces ==> WellFormed(s.surfaces[id])
    ensures var t := MergeEntries(s, c, entries);
            var id := OptionId(c.command, n);
            && IsMerge(c, entries, n, Find(s.surfaces, id), Find(t.surfaces, id))
            && (n in t.spellings <==> n in s.spellings || (Mentioned(entries, n) && id !in s.surfaces))
            && forall o: string :: Occurrences(t, o, n) == DefinitionCount(entries, o, n)
  {
    hide OptionId, EntryLongs, WellFormed, Updated, SourceOf, AliasOf, CoListed;
    var id := OptionId(c.command, n);
    if entries != [] {
      var init, e := entries[..|entries| - 1], entries[|entries| - 1];
      assert entries == init + [e];
      var mid := MergeEntries(s, c, init);
      MergeIsClosedForm(s, c, init, n);
      forall o: string ensures DefinitionCount(entries, o, n) ==
                               DefinitionCount(init, o, n) + (if o == e.origin && Defines(e, n) then 1 else 0) {
        DefinitionCountStep(init, e, o, n);
      }
      hide DefinitionCount, IsMerge, Mentioned, MergeEntries;
      assert MergeEntries(s, c, entries) == MergeEntry(mid, c, e) by {
      }
      EntryLongsDistinct(e);
      MergeNamesLookup(mid, c, e, EntryLongs(e), n);
      hide MergeNames;
      if Defines(e, n) {
        MergeStep(c, init, e, n, Occurrences(mid, e.origin, n) + 1, Find(s.surfaces, id), Find(mid.surfaces, id));
      } else {
        OtherEntry(c, init, e, n, Find(s.surfaces, id), Find(mid.surfaces, id));
      }
    }
  }

  lemma {:induction false} MergeEntriesFrame(s: State, c: Context, entries: seq<Entry>, id: string)
    requires forall n: string :: id != OptionId(c.command, n)
    ensures Find(MergeEntries(s, c, entries).surfaces, id) == Find(s.surfaces, id)
  {
    hide OptionId, EntryLongs, MergeNames;
    if entries != [] {
      var init, e := entries[..|entries| - 1], entries[|entries| - 1];
      MergeEntriesFrame(s, c, init, id);
      MergeNamesFrame(MergeEntries(s, c, init), c, e, EntryLongs(e), id);
    }
  }

  /** Of any two options of the command, each is listed with the other or neither is. */
  ghost predicate Symmetric(surfaces: map<string, Surface>, command: string) {
    forall m, n :: WasDocumentedWith(Find(surfaces, OptionId(command, m)), n) <==>
                   WasDocumentedWith(Find(surfaces, OptionId(command, n)), m)
  }

  /** Being documented together stays symmetric, whatever was in the catalogue before. */
  lemma {:induction false} DocumentedWithIsSymmetric(s: State, c: Context, entries: seq<Entry>)
    requires s.occurrences == map[] && forall id :: id in s.surfaces ==> WellFormed(s.surfaces[id])
    requires Symmetric(s.surfaces, c.command)
    ensures Symmetric(MergeEntries(s, c, entries).surfaces, c.command)
  {
    hide OptionId, MergeEntries, WasDocumentedWith;
    var t := MergeEntries(s, c, entries).surfaces;
    forall m, n
      ensures WasDocumentedWith(Find(t, OptionId(c.command, m)), n) <==>
                WasDocumentedWith(Find(s.surfaces, OptionId(c.command, m)), n) || CoListed(entries, m, n)
    {
      DocumentedBefore(s, c, entries, m, n);
    }
    forall m, n ensures CoListed(entries, m, n) <==> CoListed(entries, n, m) {
    }
  }

  /** What an option is documented with: what it was, and what an entry lists with it. */
  lemma DocumentedBefore(s: State, c: Context, entries: seq<Entry>, m: string, n: string)
    requires s.occurrences == map[] && forall id :: id in s.surfaces ==> WellFormed(s.surfaces[id])
    ensures var id := OptionId(c.command, m);
            WasDocumentedWith(Find(MergeEntries(s, c, entries).surfaces, id), n) <==>
              WasDocumentedWith(Find(s.surfaces, id), n) || CoListed(entries, m, n)
  {
    MergeIsClosedForm(s, c, entries, m);
    hide OptionId, WellFormed, SourceOf, AliasOf, Defines, MergeEntries;
  }

  /** The order of the entries does not matter to the aliases and co-documented options. */
  lemma {:induction false} MergeIgnoresOrder(s: State, c: Context, a: seq<Entry>, b: seq<Entry>, n: string)
    requires s.occurrences == map[] && forall id :: id in s.surfaces ==> WellFormed(s.surfaces[id])
    requires (forall e :: e in a <==> e in b) && Mentioned(a, n)
    ensures var t, u := MergeEntries(s, c, a).surfaces, MergeEntries(s, c, b).surfaces;
            var id := OptionId(c.command, n);
            && id in t && id in u
            && t[id].aliases == u[id].aliases && t[id].documentedWith == u[id].documentedWith
  {
    MergeIsClosedForm(s, c, a, n);
    MergeIsClosedForm(s, c, b, n);
    hide OptionId, SourceOf, Defines, MergeEntries, StrictlySorted, EntryLongs, EntryShorts;
    assert Mentioned(b, n);
    forall x ensures AliasOf(a, n, x) <==> AliasOf(b, n, x) {
    }
    forall x ensures CoListed(a, n, x) <==> CoListed(b, n, x) {
    }
    var id := OptionId(c.command, n);
    var t, u := MergeEntries(s, c, a).surfaces, MergeEntries(s, c, b).surfaces;
    StrictListingIsUnique(t[id].aliases, u[id].aliases);
    StrictListingIsUnique(t[id].documentedWith, u[id].documentedWith);
  }

  // ---------------------------------------------------------------------------
  // Exclusions

  /** The spellings of an entry stand in the order in which they first appear. */
  lemma {:induction false} NamesInOrder(matches: seq<string>) returns (at: seq<nat>)
    ensures |at| == |Names(matches)|
    ensures forall i :: 0 <= i < |at| ==>
              at[i] < |matches| && matches[at[i]] == Names(matches)[i] && matches[at[i]] !in matches[..at[i]]
    ensures forall i, j :: 0 <= i < j < |at| ==> at[i] < at[j]
  {
    if matches == [] {
      at := [];
    } else {
      var n := |matches| - 1;
      at := NamesInOrder(matches[..n]);
      NamesElements(matches[..n]);
      assert forall k :: 0 <= k < n ==> matches[..n][k] == matches[k] && matches[..n][..k] == matches[..k];
      if matches[n] !in Names(matches[..n]) {
        at := at + [n];
      }
    }
  }

  /** The entry has spellings, but no long one. */
  predicate IsShortOnly(c: Context, e: Entry, x: Exclusion) {
    && e.matches != [] && (forall m :: m in e.matches ==> !IsLong(m))
    && x == ShortOnly(c.command, Names(e.matches), c.path)
  }

  /** The entry defines an option that is in the catalogue already, before or by an entry before it. */
  ghost predicate IsCollapsed(s: State, c: Context, before: seq<Entry>, e: Entry, x: Exclusion) {
    exists n :: Defines(e, n) && (OptionId(c.command, n) in s.surfaces || Mentioned(before, n))
                && x == Collapsed(c.command, n, c.path)
  }

  lemma {:induction false} MergeNamesExcludes(s: State, c: Context, e: Entry, names: seq<string>, x: Exclusion)
    requires Distinct(names)
    ensures x in MergeNames(s, c, e, names).exclusions <==>
              x in s.exclusions
              || exists n :: n in names && OptionId(c.command, n) in s.surfaces && x == Collapsed(c.command, n, c.path)
  {
    hide Updated, OptionId;
    if names != [] {
      var init, last := names[..|names| - 1], names[|names| - 1];
      MergeNamesExcludes(s, c, e, init, x);
      MergeNamesLookup(s, c, e, init, last);
      assert names == init + [last] && last !in init;
    }
  }

  lemma NoLongs(e: Entry)
    ensures EntryLongs(e) == [] <==> forall m :: m in e.matches ==> !IsLong(m)
    ensures Names(e.matches) == [] <==> e.matches == []
  {
    NamesElements(e.matches);
    LongsElements(Names(e.matches));
    var longs, names := EntryLongs(e), Names(e.matches);
    assert longs != [] ==> longs[0] in longs;
    assert names != [] ==> names[0] in names;
    assert e.matches != [] ==> e.matches[0] in e.matches;
  }

  lemma {:induction false} MergeEntryExcludes(s: State, c: Context, e: Entry, x: Exclusion)
    ensures x in MergeEntry(s, c, e).exclusions <==>
              || x in s.exclusions || IsShortOnly(c, e, x)
              || exists n :: Defines(e, n) && OptionId(c.command, n) in s.surfaces
                             && x == Collapsed(c.command, n, c.path)
  {
    NoLongs(e);
    EntryLongsDistinct(e);
    MergeNamesExcludes(s, c, e, EntryLongs(e), x);
    hide MergeNames, OptionId, EntryLongs, Names, IsLong, Distinct;
  }

  /** What the pass excludes: entries with short spellings only, and repeated definitions. */
  lemma {:induction false} ExclusionsByEntries(s: State, c: Context, entries: seq<Entry>, x: Exclusion)
    requires s.occurrences == map[] && forall id :: id in s.surfaces ==> WellFormed(s.surfaces[id])
    ensures x in MergeEntries(s, c, entries).exclusions <==>
              || x in s.exclusions
              || exists i :: 0 <= i < |entries|
                             && (IsShortOnly(c, entries[i], x) || IsCollapsed(s, c, entries[..i], entries[i], x))
  {
    hide MergeEntry, IsShortOnly, OptionId, WellFormed, Defines;
    if entries != [] {
      var n := |entries| - 1;
      var front := entries[..n];
      ExclusionsByEntries(s, c, front, x);
      var mid := MergeEntries(s, c, front);
      MergeEntryExcludes(mid, c, entries[n], x);
      forall name ensures OptionId(c.command, name) in mid.surfaces <==>
                          OptionId(c.command, name) in s.surfaces || Mentioned(front, name) {
        MergeIsClosedForm(s, c, front, name);
      }
      hide MergeEntries, Mentioned;
      assert forall i :: 0 <= i < n ==> front[i] == entries[i] && front[..i] == entries[..i];
    }
  }
}
