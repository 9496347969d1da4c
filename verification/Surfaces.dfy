/** The interface entries of the catalogue, and merging repeated option definitions.
    The merge is written as the pass performs it, one spelling of one entry at a time,
    with the numbering of definitions that tells their sources apart. */
module Surfaces {
  import opened Options
  import opened Ordering

  datatype Kind = CliCommand | CliOption | LibraryFunction | LibrarySignal

  /** Where an entry comes from: the anchors are told apart by their text. */
  datatype Anchor =
    | Definition(name: string, nth: nat)
    | IncludedFrom(origin: string)
    | SignalBlock(owner: string, name: string)
    | SignalRegistration(name: string)

  datatype Source = Source(path: string, anchor: Anchor)

  /** `scope` is the command of an option and the owner of a signal. */
  datatype Surface = Surface(kind: Kind, name: string, scope: string, sources: seq<Source>,
                             aliases: seq<string>, documentedWith: seq<string>)

  datatype Exclusion =
    | ShortOnly(command: string, names: seq<string>, path: string)
    | Collapsed(command: string, name: string, path: string)
    | PrivateSignal(owner: string, name: string, path: string)

  /** One option definition: the document it is written in, and the option spellings
      its terms match, in order. */
  datatype Entry = Entry(origin: string, matches: seq<string>)

  datatype Context = Context(command: string, path: string)

  function OptionId(command: string, name: string): string { "cli.option." + command + "." + name }

  predicate IsNameChar(c: char) { 'a' <= c <= 'z' || 'A' <= c <= 'Z' || '0' <= c <= '9' || c == '_' || c == '-' }

  /** The names of commands and options: never empty, and of an alphabet without dots. */
  predicate IsInterfaceName(name: string) { name != "" && forall k :: 0 <= k < |name| ==> IsNameChar(name[k]) }

  /** A registered name is a C string literal of such a name; anything else raises. */
  function StringLiteral(value: string): Option<string> {
    if |value| >= 3 && value[0] == '"' && value[|value| - 1] == '"' && IsInterfaceName(value[1..|value| - 1])
    then Some(value[1..|value| - 1]) else None
  }

  predicate IsLong(name: string) { |name| >= 2 && name[..2] == "--" }

  /** The spellings without repetitions, in order of first appearance. */
  function Names(matches: seq<string>): seq<string> {
    if matches == [] then []
    else
      var names := Names(matches[..|matches| - 1]);
      var last := matches[|matches| - 1];
      if last in names then names else names + [last]
  }

  function Longs(names: seq<string>): seq<string> {
    if names == [] then []
    else Longs(names[..|names| - 1]) + (if IsLong(names[|names| - 1]) then [names[|names| - 1]] else [])
  }

  function Shorts(names: seq<string>): seq<string> {
    if names == [] then []
    else Shorts(names[..|names| - 1]) + (if IsLong(names[|names| - 1]) then [] else [names[|names| - 1]])
  }

  function Others(names: seq<string>, name: string): seq<string> {
    if names == [] then []
    else Others(names[..|names| - 1], name) + (if names[|names| - 1] == name then [] else [names[|names| - 1]])
  }

  function EntryLongs(e: Entry): seq<string> { Longs(Names(e.matches)) }

  function EntryShorts(e: Entry): seq<string> { Shorts(Names(e.matches)) }

  /** Appends the sources that are not in the list yet. */
  function Extend(sources: seq<Source>, more: seq<Source>): seq<Source> {
    if more == [] then sources
    else
      var extended := Extend(sources, more[..|more| - 1]);
      var last := more[|more| - 1];
      if last in extended then extended else extended + [last]
  }

  function NewSources(c: Context, e: Entry, name: string, nth: nat): seq<Source> {
    [Source(e.origin, Definition(name, nth))] +
    (if e.origin != c.path then [Source(c.path, IncludedFrom(e.origin))] else [])
  }

  /** Short spellings are aliases only if the entry has exactly one long spelling. */
  function NewAliases(e: Entry): seq<string> {
    if |EntryLongs(e)| == 1 then SortedSet(EntryShorts(e)) else []
  }

  function NewOthers(e: Entry, name: string): seq<string> { SortedSet(Others(EntryLongs(e), name)) }

  /** The entry of option `name` after one more definition, its `nth` in that document. */
  function Updated(previous: Option<Surface>, c: Context, e: Entry, name: string, nth: nat): Surface {
    match previous
    case None => Surface(CliOption, name, c.command, NewSources(c, e, name, nth), NewAliases(e), NewOthers(e, name))
    case Some(p) =>
      p.(sources := Extend(p.sources, NewSources(c, e, name, nth)),
         aliases := SortedSet(p.aliases + NewAliases(e)),
         documentedWith := if NewOthers(e, name) == [] then p.documentedWith
                           else SortedSet(p.documentedWith + NewOthers(e, name)))
  }

  /** What the option pass updates. */
  datatype State = State(surfaces: map<string, Surface>, exclusions: set<Exclusion>,
                         occurrences: map<(string, string), nat>, spellings: set<string>)

  function Find(surfaces: map<string, Surface>, id: string): Option<Surface> {
    if id in surfaces then Some(surfaces[id]) else None
  }

  function Occurrences(s: State, origin: string, name: string): nat {
    if (origin, name) in s.occurrences then s.occurrences[(origin, name)] else 0
  }

  function MergeName(s: State, c: Context, e: Entry, name: string): State {
    var nth := Occurrences(s, e.origin, name) + 1;
    var id := OptionId(c.command, name);
    var merged := Updated(Find(s.surfaces, id), c, e, name, nth);
    var known := id in s.surfaces;
    State(s.surfaces[id := merged],
          if known then s.exclusions + {Collapsed(c.command, name, c.path)} else s.exclusions,
          s.occurrences[(e.origin, name) := nth],
          if known then s.spellings else s.spellings + {name})
  }

  function MergeNames(s: State, c: Context, e: Entry, names: seq<string>): State {
    if names == [] then s
    else MergeName(MergeNames(s, c, e, names[..|names| - 1]), c, e, names[|names| - 1])
  }

  function MergeEntry(s: State, c: Context, e: Entry): State {
    if EntryLongs(e) != [] then MergeNames(s, c, e, EntryLongs(e))
    else if Names(e.matches) != [] then
      s.(exclusions := s.exclusions + {ShortOnly(c.command, Names(e.matches), c.path)})
    else s
  }

  function MergeEntries(s: State, c: Context, entries: seq<Entry>): State {
    if entries == [] then s
    else MergeEntry(MergeEntries(s, c, entries[..|entries| - 1]), c, entries[|entries| - 1])
  }
}
