/** The catalogue generator: its entries and exclusions are updated in place, by the
    option pass and by the signal pass, and each loop is proved against the specification
    of its pass. */
module Generator {
  import opened Options
  import opened Ordering
  import opened Text
  import opened Surfaces
  import opened OptionTerms
  import opened Signals

  class Generator {
    var surfaces: map<string, Surface>
    var exclusions: set<Exclusion>

    constructor ()
      ensures surfaces == map[] && exclusions == {}
    {
      surfaces, exclusions := map[], {};
    }

    /** Raises on a second entry with the same identifier. */
    method Add(id: string, item: Surface) returns (ok: bool)
      modifies this`surfaces
      ensures ok <==> id !in old(surfaces)
      ensures surfaces == if ok then old(surfaces)[id := item] else old(surfaces)
    {
      if id in surfaces {
        return false;
      }
      surfaces := surfaces[id := item];
      return true;
    }

    /** The distinct spellings of one definition's terms; raises on one that cannot be read. */
    method CollectNames(terms: seq<Term>) returns (names: Option<seq<string>>)
      ensures names == match Spellings(terms) case None => None case Some(matches) => Some(Names(matches))
    {
      hide Strip, SpellingOf;
      var found: seq<string> := [];
      ghost var matches: seq<string> := [];
      for i := 0 to |terms|
        invariant Spellings(terms[..i]) == Some(matches) && found == Names(matches)
      {
        assert terms[..i + 1][..i] == terms[..i];
        var more := AddTerm(terms[i], found, matches);
        if more.None? {
          SpellingsStop(terms, i);
          return None;
        }
        found, matches := more.value, matches + TermMatches(terms[i]).value;
      }
      assert terms[..|terms|] == terms;
      return Some(found);
    }

    /** The spellings of one term, added to those found so far. */
    method AddTerm(t: Term, found: seq<string>, ghost matches: seq<string>) returns (names: Option<seq<string>>)
      requires found == Names(matches)
      ensures names == match TermMatches(t) case None => None case Some(more) => Some(Names(matches + more))
    {
      hide Strip, SpellingOf;
      if t.options == [] && StartsWith(Strip(t.text), "-") {
        return None;
      }
      var all := found;
      ghost var more: seq<string> := [];
      assert matches + [] == matches;
      for i := 0 to |t.options|
        invariant OptionMatches(t.options[..i]) == Some(more) && all == Names(matches + more)
      {
        assert t.options[..i + 1][..i] == t.options[..i];
        var value := Strip(t.options[i]);
        var name := SpellingOf(value);
        if name.Some? {
          assert (matches + (more + [name.value]))[..|matches + more|] == matches + more;
          more := more + [name.value];
          if name.value !in all {
            all := all + [name.value];
          }
        } else if StartsWith(value, "-") {
          OptionsFail(t.options, i + 1);
          return None;
        }
      }
      assert t.options[..|t.options|] == t.options;
      return Some(all);
    }

    /** The state of the pass, as the specification sees it. */
    ghost function Pass(occurrences: map<(string, string), nat>, spellings: set<string>): State
      reads this
    {
      State(surfaces, exclusions, occurrences, spellings)
    }

    /** One long spelling of one entry: a new item or a merge into the earlier one. */
    method MergeSpelling(c: Context, e: Entry, name: string, occurrences: map<(string, string), nat>,
                         spellings: set<string>)
      returns (occurrences': map<(string, string), nat>, spellings': set<string>)
      modifies this
      ensures Pass(occurrences', spellings') == MergeName(old(Pass(occurrences, spellings)), c, e, name)
    {
      hide SortedSet, EntryLongs, EntryShorts;
      var nth := if (e.origin, name) in occurrences then occurrences[(e.origin, name)] + 1 else 1;
      occurrences' := occurrences[(e.origin, name) := nth];
      var sources := NewSources(c, e, name, nth);
      var aliases, documentedWith := NewAliases(e), NewOthers(e, name);
      var identifier := OptionId(c.command, name);
      if identifier in surfaces {
        var previous := surfaces[identifier];
        previous := previous.(sources := Extend(previous.sources, sources));
        previous := previous.(aliases := SortedSet(previous.aliases + aliases));
        if documentedWith != [] {
          previous := previous.(documentedWith := SortedSet(previous.documentedWith + documentedWith));
        }
        surfaces := surfaces[identifier := previous];
        exclusions := exclusions + {Collapsed(c.command, name, c.path)};
        spellings' := spellings;
      } else {
        spellings' := spellings + {name};
        var ok := Add(identifier, Surface(CliOption, name, c.command, sources, aliases, documentedWith));
      }
    }

    method MergeSpellings(c: Context, e: Entry, longs: seq<string>, occurrences: map<(string, string), nat>,
                          spellings: set<string>)
      returns (occurrences': map<(string, string), nat>, spellings': set<string>)
      modifies this
      ensures Pass(occurrences', spellings') == MergeNames(old(Pass(occurrences, spellings)), c, e, longs)
    {
      hide MergeName;
      occurrences', spellings' := occurrences, spellings;
      for k := 0 to |longs|
        invariant Pass(occurrences', spellings') == MergeNames(old(Pass(occurrences, spellings)), c, e, longs[..k])
      {
        assert longs[..k + 1][..k] == longs[..k];
        occurrences', spellings' := MergeSpelling(c, e, longs[k], occurrences', spellings');
      }
      assert longs[..|longs|] == longs;
    }

    /** The option definitions of one manual; raises on one that cannot be read, and if there is no
        long spelling at all. */
    method Options(command: string, path: string, listings: seq<Listing>) returns (r: Option<set<string>>)
      modifies this
      ensures var entries := EntriesOf(listings);
              var t := MergeEntries(State(old(surfaces), old(exclusions), map[], {}), Context(command, path), entries);
              && surfaces == t.surfaces && exclusions == t.exclusions
              && r == if |entries| < |listings| || t.spellings == {} then None else Some(t.spellings)
    {
      hide MergeNames, Spellings;
      var c := Context(command, path);
      var occurrences: map<(string, string), nat> := map[];
      var spellings: set<string> := {};
      ghost var start := Pass(occurrences, spellings);
      ghost var entries: seq<Entry> := [];
      for i := 0 to |listings|
        invariant entries == EntriesOf(listings[..i]) && |entries| == i
        invariant Pass(occurrences, spellings) == MergeEntries(start, c, entries)
      {
        assert listings[..i + 1][..i] == listings[..i];
        var names := CollectNames(listings[i].terms);
        if names.None? {
          EntriesStop(listings, i);
          return None;
        }
        var e := EntryOf(listings[i]).value;
        assert (entries + [e])[..i] == entries;
        entries := entries + [e];
        var longs := Longs(names.value);
        if longs == [] {
          if names.value != [] {
            exclusions := exclusions + {ShortOnly(command, names.value, path)};
          }
        } else {
          occurrences, spellings := MergeSpellings(c, e, longs, occurrences, spellings);
        }
      }
      assert listings[..|listings|] == listings;
      r := if spellings == {} then None else Some(spellings);
    }

    /** The signals of one C file; raises unless every public registration and every
        documented public signal finds its partner. */
    method RegisterSignals(f: File, public: set<string>) returns (ok: bool)
      requires Scanned(f)
      modifies this
      ensures ok <==> Pairable(f, public, old(surfaces))
      ensures ok ==> surfaces == Registered(f, public, old(surfaces), |f.registrations|)
      ensures ok ==> exclusions == Excluded(f, public, old(exclusions), |f.registrations|)
    {
      hide Placed, SemicolonBetween, Inside, IdOf, ItemOf, Owner, OwnerName, Nearest;
      var consumed: set<nat> := {};
      for k := 0 to |f.registrations|
        invariant forall j :: 0 <= j < k ==> Accepted(f, public, old(surfaces), j)
        invariant surfaces == Registered(f, public, old(surfaces), k)
        invariant exclusions == Excluded(f, public, old(exclusions), k)
        invariant ConsumedBy(f, public, k, consumed)
      {
        var added := RegisterSignal(f, public, k, consumed, old(surfaces));
        if added.None? {
          assert !Accepted(f, public, old(surfaces), k);
          return false;
        }
        consumed := added.value;
      }
      for b := 0 to |f.blocks|
        invariant surfaces == Registered(f, public, old(surfaces), |f.registrations|)
        invariant exclusions == Excluded(f, public, old(exclusions), |f.registrations|)
        invariant forall i :: 0 <= i < b && f.blocks[i].owner in public ==> Claimed(f, public, i)
      {
        if f.blocks[b].owner in public && f.blocks[b].end !in consumed {
          return false;
        }
      }
      return true;
    }

    /** One registration; returns the ends of the documentation blocks used so far. */
    method RegisterSignal(f: File, public: set<string>, k: nat, consumed: set<nat>, ghost before: map<string, Surface>)
      returns (r: Option<set<nat>>)
      requires Scanned(f) && k < |f.registrations|
      requires surfaces == Registered(f, public, before, k) && ConsumedBy(f, public, k, consumed)
      modifies this
      ensures r.Some? <==> Accepted(f, public, before, k)
      ensures r.Some? ==> surfaces == Registered(f, public, before, k + 1) && ConsumedBy(f, public, k + 1, r.value)
      ensures r.Some? ==> f.registrations[k].name.Some?
      ensures r.Some? ==>
                exclusions == if IsPublic(f, public, k) then old(exclusions)
                              else old(exclusions) + {PrivateSignal(OwnerName(f, k), f.registrations[k].name.value,
                                                                    f.path)}
    {
      hide SemicolonBetween, Inside, Owner, Nearest;
      if !Placed(f, k) {
        return None;
      }
      var name := f.registrations[k].name.value;
      if !IsPublic(f, public, k) {
        exclusions := exclusions + {PrivateSignal(OwnerName(f, k), name, f.path)};
        return Some(consumed);
      }
      var preceding := Partner(f, k);
      if preceding.None? {
        return None;
      }
      var block := f.blocks[preceding.value];
      if block.name != name || block.owner != OwnerName(f, k) || SemicolonBetween(f, k, preceding.value) {
        return None;
      }
      if block.end in consumed {
        return None;
      }
      RegisteredKeys(f, public, before, k, IdOf(f, k));
      var ok := Add(IdOf(f, k), ItemOf(f, k));
      if !ok {
        return None;
      }
      return Some(consumed + {block.end});
    }
  }

  /** The ends of the blocks that are the partners of the first `k` public registrations. */
  ghost predicate ConsumedBy(f: File, public: set<string>, k: nat, consumed: set<nat>)
    requires k <= |f.registrations|
  {
    && (forall j :: 0 <= j < k && IsPublic(f, public, j) ==>
         Partner(f, j).Some? && f.blocks[Partner(f, j).value].end in consumed)
    && (forall e :: e in consumed ==>
          exists j ::
            && 0 <= j < k && IsPublic(f, public, j) && Partner(f, j).Some?
            && f.blocks[Partner(f, j).value].end == e)
  }
}
