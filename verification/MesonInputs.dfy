/** The inputs named by a Meson build file: its public headers and its common C sources. */
module MesonInputs {
  import opened Sequences
  import opened Options
  import opened Lexer
  import opened Text
  import opened Ordering
  import opened Splitter
  import opened Meson

  // ---------------------------------------------------------------------------
  // Statements

  /** The length of a quoted text up to the same quotation mark, without escapes. */
  function QuoteEnd(s: string): (r: Option<nat>)
    ensures r.Some? ==> 2 <= r.value <= |s|
  {
    if s == "" || !IsQuote(s[0]) then None
    else
      var n := Upto(s[1..], s[0]);
      if n < |s| - 1 then Some(n + 2) else None
  }

  /** The number of characters before the first `c`. */
  function Upto(s: string, c: char): (n: nat)
    ensures n <= |s| && (n < |s| ==> s[n] == c) && forall k :: 0 <= k < n ==> s[k] != c
  {
    if s == "" || s[0] == c then 0 else 1 + Upto(s[1..], c)
  }

  /** Comments are taken out up to the end of their line, outside quoted text. */
  function Uncommented(s: string): string
    decreases |s|
  {
    if s == "" then ""
    else if QuoteEnd(s).Some? then s[..QuoteEnd(s).value] + Uncommented(s[QuoteEnd(s).value..])
    else if s[0] == '#' then Uncommented(s[1 + LineLength(s[1..])..])
    else [s[0]] + Uncommented(s[1..])
  }

  function WordRun(s: string, word: char -> bool): (n: nat)
    ensures n <= |s|
  {
    if s == "" || !word(s[0]) then 0 else 1 + WordRun(s[1..], word)
  }

  datatype Definition = Definition(appended: bool, value: string)

  datatype Assignment = Assignment(name: string, definition: Definition)

  function AssignmentOf(s: string, word: char -> bool): Option<Assignment> {
    var n := WordRun(s, word);
    var j := SkipSpace(s, n);
    if n > 0 && j + 1 < |s| && s[j] == '+' && s[j + 1] == '=' then
      Some(Assignment(s[..n], Definition(true, s[SkipSpace(s, j + 2)..])))
    else if n > 0 && j < |s| && s[j] == '=' then
      Some(Assignment(s[..n], Definition(false, s[SkipSpace(s, j + 1)..])))
    else None
  }

  /** The arguments, if the whole text is a call of the function. */
  function CallOf(s: string, name: string): Option<string> {
    if !StartsWith(s, name) then None
    else
      var j := SkipSpace(s, |name|);
      if j + 1 < |s| && s[j] == '(' && s[|s| - 1] == ')' then Some(s[j + 1..|s| - 1]) else None
  }

  function InstallerOf(s: string): Option<string> { CallOf(s, "install_headers") }

  function LibraryCall(s: string): Option<string> {
    if CallOf(s, "static_library").Some? then CallOf(s, "static_library") else CallOf(s, "library")
  }

  /** A library declaration, assigned to a name or not. */
  function LibraryOf(s: string, word: char -> bool): Option<string> {
    var n := WordRun(s, word);
    var j := SkipSpace(s, n);
    if n > 0 && j < |s| && s[j] == '=' && LibraryCall(s[SkipSpace(s, j + 1)..]).Some?
    then LibraryCall(s[SkipSpace(s, j + 1)..]) else LibraryCall(s)
  }

  /** A keyword argument: the keyword and what it is given. */
  function KeywordOf(argument: string, word: char -> bool): Option<(string, string)> {
    var n := WordRun(argument, word);
    var j := SkipSpace(argument, n);
    if n > 0 && j < |argument| && argument[j] == ':' then
      Some((argument[..n], argument[SkipSpace(argument, j + 1)..]))
    else None
  }

  /** A call of the function begins at a word boundary at `i`. */
  predicate CallAt(s: string, i: nat, name: string, word: char -> bool)
    requires i <= |s|
  {
    AtBoundary(s, i, word) && Opens(s[i..], name)
  }

  predicate AtBoundary(s: string, i: nat, word: char -> bool)
    requires i <= |s|
  {
    (i > 0 && word(s[i - 1])) != (i < |s| && word(s[i]))
  }

  /** The text begins with the name and an opening parenthesis. */
  predicate Opens(s: string, name: string) {
    StartsWith(s, name) && var j := SkipSpace(s, |name|); j < |s| && s[j] == '('
  }

  predicate IsCall(s: string, i: nat, names: set<string>, word: char -> bool)
    requires i <= |s|
  {
    exists name :: name in names && CallAt(s, i, name, word)
  }

  function CountCalls(s: string, n: nat, names: set<string>, word: char -> bool): nat
    requires n <= |s| + 1
  {
    if n == 0 then 0
    else CountCalls(s, n - 1, names, word) + (if IsCall(s, n - 1, names, word) then 1 else 0)
  }

  /** The number of calls of the functions anywhere in the text. */
  function Calls(s: string, names: set<string>, word: char -> bool): nat { CountCalls(s, |s| + 1, names, word) }

  // ---------------------------------------------------------------------------
  // What is accepted, and what it denotes

  function Definitions(ss: seq<string>, name: string, word: char -> bool): seq<Definition> {
    if ss == [] then []
    else Definitions(ss[..|ss| - 1], name, word) + DefinitionIn(ss[|ss| - 1], name, word)
  }

  function DefinitionIn(s: string, name: string, word: char -> bool): seq<Definition> {
    match AssignmentOf(s, word)
    case None => []
    case Some(a) => if a.name == name then [a.definition] else []
  }

  function HeaderList(value: string): Option<string> {
    if IsList(value) && forall k :: 1 <= k < |value| - 1 ==> value[k] != ']' then Some(value[1..|value| - 1]) else None
  }

  predicate IsHeader(part: string) { Quoted(part).Some? && IsFile(Quoted(part).value, ".h") }

  function HeaderNames(parts: seq<string>): Option<seq<string>> {
    if parts == [] then Some([])
    else match HeaderNames(parts[..|parts| - 1])
         case None => None
         case Some(names) =>
           if IsHeader(parts[|parts| - 1]) then Some(names + [Quoted(parts[|parts| - 1]).value]) else None
  }

  function HeadersOf(definitions: seq<Definition>): Option<seq<string>> {
    if |definitions| != 1 || definitions[0].appended then None
    else
      match HeaderList(definitions[0].value)
      case None => None
      case Some(inner) =>
        match Split(inner, ',')
        case None => None
        case Some(parts) =>
          match HeaderNames(parts)
          case None => None
          case Some(names) => if names != [] && Distinct(names) then Some(names) else None
  }

  function SourceNames(ss: seq<string>, word: char -> bool): set<string> {
    set i | 0 <= i < |ss| && AssignmentOf(ss[i], word).Some?
            && EndsWith(AssignmentOf(ss[i], word).value.name, "sources") ::
      AssignmentOf(ss[i], word).value.name
  }

  /** One plain assignment, the first, and only supported source expressions. */
  predicate DefinitionsOk(definitions: seq<Definition>, digit: char -> bool) {
    && definitions != [] && !definitions[0].appended
    && (forall i :: 1 <= i < |definitions| ==> definitions[i].appended)
    && forall i :: 0 <= i < |definitions| ==> Parse(definitions[i].value, {}, digit).Some?
  }

  function DefinedSources(definitions: seq<Definition>, digit: char -> bool): set<string> {
    set i, x | 0 <= i < |definitions| && Parse(definitions[i].value, {}, digit).Some?
               && x in Denotes(Parse(definitions[i].value, {}, digit).value) :: x
  }

  predicate InstallerOk(args: string, word: char -> bool) {
    match Split(args, ',')
    case None => false
    case Some(parts) =>
      parts != [] && parts[0] == "public_headers" && forall k :: 1 <= k < |parts| ==> KeywordOf(parts[k], word).Some?
  }

  /** The source expression of a library argument, if it is one. */
  function ArgumentSource(argument: string, word: char -> bool): Option<string> {
    match KeywordOf(argument, word)
    case None => Some(argument)
    case Some(keyword) => if keyword.0 == "sources" then Some(keyword.1) else None
  }

  predicate ArgumentOk(argument: string, references: set<string>, word: char -> bool, digit: char -> bool) {
    match ArgumentSource(argument, word) case None => true case Some(e) => Parse(e, references, digit).Some?
  }

  function ArgumentDenotes(argument: string, references: set<string>, word: char -> bool,
                           digit: char -> bool): set<string> {
    match ArgumentSource(argument, word)
    case None => {}
    case Some(e) => match Parse(e, references, digit) case None => {} case Some(tree) => Denotes(tree)
  }

  predicate LibraryOk(args: string, references: set<string>, word: char -> bool, digit: char -> bool) {
    match Split(args, ',')
    case None => false
    case Some(parts) =>
      && parts != [] && Quoted(parts[0]).Some?
      && forall k :: 1 <= k < |parts| ==> ArgumentOk(parts[k], references, word, digit)
  }

  function LibrarySources(args: string, references: set<string>, word: char -> bool, digit: char -> bool): set<string> {
    match Split(args, ',')
    case None => {}
    case Some(parts) => set k, x | 1 <= k < |parts| && x in ArgumentDenotes(parts[k], references, word, digit) :: x
  }

  predicate CallsOk(s: string, references: set<string>, word: char -> bool, digit: char -> bool) {
    && (InstallerOf(s).Some? ==> InstallerOk(InstallerOf(s).value, word))
    && (LibraryOf(s, word).Some? ==> LibraryOk(LibraryOf(s, word).value, references, word, digit))
  }

  function CalledSources(s: string, references: set<string>, word: char -> bool, digit: char -> bool): set<string> {
    match LibraryOf(s, word) case None => {} case Some(args) => LibrarySources(args, references, word, digit)
  }

  predicate Installs(s: string) { InstallerOf(s).Some? }

  function Declares(word: char -> bool): string -> bool { s => LibraryOf(s, word).Some? }

  function Tally(ss: seq<string>, p: string -> bool): nat {
    if ss == [] then 0 else Tally(ss[..|ss| - 1], p) + (if p(ss[|ss| - 1]) then 1 else 0)
  }

  function References(ss: seq<string>, word: char -> bool): set<string> { SourceNames(ss, word) + {"public_headers"} }

  /** The C files of all source lists and of all library declarations. */
  function CSources(ss: seq<string>, word: char -> bool, digit: char -> bool): set<string> {
    (set name, x | name in SourceNames(ss, word) && x in DefinedSources(Definitions(ss, name, word), digit) :: x)
    + (set i, x | 0 <= i < |ss| && x in CalledSources(ss[i], References(ss, word), word, digit) :: x)
  }

  /** The text is a source expression in which the file stands. */
  ghost predicate Shows(text: string, name: string, references: set<string>, digit: char -> bool) {
    Parse(text, references, digit).Some? && Occurs(name, Parse(text, references, digit).value)
  }

  /** The statement assigns to a source list, or extends it by, a text that shows the file. */
  ghost predicate DefinesFile(s: string, name: string, word: char -> bool, digit: char -> bool) {
    && AssignmentOf(s, word).Some? && EndsWith(AssignmentOf(s, word).value.name, "sources")
    && Shows(AssignmentOf(s, word).value.definition.value, name, {}, digit)
  }

  /** The statement declares a library, and an argument behind the first shows the file: one without
      a keyword or that of the keyword `sources`. */
  ghost predicate CompilesFile(s: string, name: string, references: set<string>, word: char -> bool,
                               digit: char -> bool) {
    && LibraryOf(s, word).Some? && Split(LibraryOf(s, word).value, ',').Some?
    && var parts := Split(LibraryOf(s, word).value, ',').value;
       exists k :: 1 <= k < |parts| &&
         match KeywordOf(parts[k], word)
         case None => Shows(parts[k], name, references, digit)
         case Some(keyword) => keyword.0 == "sources" && Shows(keyword.1, name, references, digit)
  }

  /** Some statement of the build file names the file as a source. */
  ghost predicate Names(ss: seq<string>, name: string, word: char -> bool, digit: char -> bool) {
    exists s ::
      s in ss && (DefinesFile(s, name, word, digit) || CompilesFile(s, name, References(ss, word), word, digit))
  }

  lemma ArgumentDenotesFile(argument: string, name: string, references: set<string>, word: char -> bool,
                            digit: char -> bool)
    ensures name in ArgumentDenotes(argument, references, word, digit) <==>
              IsC(name) &&
              match KeywordOf(argument, word)
              case None => Shows(argument, name, references, digit)
              case Some(keyword) => keyword.0 == "sources" && Shows(keyword.1, name, references, digit)
  {
    hide Parse, Occurs, Denotes, IsC, KeywordOf;
    match ArgumentSource(argument, word)
    case None =>
    case Some(text) =>
      if Parse(text, references, digit).Some? {
        DenotesItsCFiles(Parse(text, references, digit).value, name);
      }
  }

  lemma {:induction false} CalledFiles(s: string, name: string, references: set<string>, word: char -> bool,
                                       digit: char -> bool)
    ensures name in CalledSources(s, references, word, digit) <==>
              IsC(name) && CompilesFile(s, name, references, word, digit)
  {
    hide LibraryOf, Split, ArgumentDenotes, KeywordOf, Shows, IsC;
    if LibraryOf(s, word).Some? && Split(LibraryOf(s, word).value, ',').Some? {
      var parts := Split(LibraryOf(s, word).value, ',').value;
      forall k | 1 <= k < |parts|
        ensures name in ArgumentDenotes(parts[k], references, word, digit) <==>
                  IsC(name) &&
                  match KeywordOf(parts[k], word)
                  case None => Shows(parts[k], name, references, digit)
                  case Some(keyword) => keyword.0 == "sources" && Shows(keyword.1, name, references, digit)
      {
        ArgumentDenotesFile(parts[k], name, references, word, digit);
      }
    }
  }

  lemma DefinedFile(d: Definition, name: string, digit: char -> bool)
    ensures Parse(d.value, {}, digit).Some? && name in Denotes(Parse(d.value, {}, digit).value) <==>
              IsC(name) && Shows(d.value, name, {}, digit)
  {
    hide Parse, Occurs, Denotes, IsC;
    if Parse(d.value, {}, digit).Some? {
      DenotesItsCFiles(Parse(d.value, {}, digit).value, name);
    }
  }

  lemma {:induction false} DefinedFiles(ss: seq<string>, list: string, name: string, word: char -> bool,
                                        digit: char -> bool)
    ensures name in DefinedSources(Definitions(ss, list, word), digit) <==>
              IsC(name) && exists s :: s in ss && Assigns(s, list, word)
                                       && Shows(AssignmentOf(s, word).value.definition.value, name, {}, digit)
  {
    hide Parse, Denotes, Shows, IsC, AssignmentOf;
    var ds := Definitions(ss, list, word);
    DefinitionsAre(ss, list, word);
    forall d: Definition
      ensures Parse(d.value, {}, digit).Some? && name in Denotes(Parse(d.value, {}, digit).value) <==>
                IsC(name) && Shows(d.value, name, {}, digit)
    {
      DefinedFile(d, name, digit);
    }
    if name in DefinedSources(ds, digit) {
      var i :| 0 <= i < |ds| && Parse(ds[i].value, {}, digit).Some?
               && name in Denotes(Parse(ds[i].value, {}, digit).value);
      assert ds[i] in ds;
    }
    if IsC(name) && exists s :: s in ss && Assigns(s, list, word)
                              && Shows(AssignmentOf(s, word).value.definition.value, name, {}, digit) {
      var s :| s in ss && Assigns(s, list, word)
               && Shows(AssignmentOf(s, word).value.definition.value, name, {}, digit);
      var d := AssignmentOf(s, word).value.definition;
      assert d in ds;
      var i :| 0 <= i < |ds| && ds[i] == d;
    }
  }

  lemma {:induction false} DefinitionsAre(ss: seq<string>, list: string, word: char -> bool)
    ensures forall d :: d in Definitions(ss, list, word) <==>
              exists s :: s in ss && Assigns(s, list, word) && AssignmentOf(s, word).value.definition == d
  {
    hide AssignmentOf;
    if ss != [] {
      var n := |ss| - 1;
      DefinitionsAre(ss[..n], list, word);
      assert ss == ss[..n] + [ss[n]];
    }
  }

  /** The C sources of a build file: the C files that its source lists and libraries name. */
  lemma {:induction false} SourcesAreNamed(ss: seq<string>, name: string, word: char -> bool, digit: char -> bool)
    ensures name in CSources(ss, word, digit) <==> IsC(name) && Names(ss, name, word, digit)
  {
    hide DefinedSources, Definitions, CalledSources, CompilesFile, Shows, IsC, AssignmentOf, EndsWith;
    forall list ensures name in DefinedSources(Definitions(ss, list, word), digit) <==>
                        IsC(name) && exists s :: s in ss && Assigns(s, list, word)
                                       && Shows(AssignmentOf(s, word).value.definition.value, name, {}, digit) {
      DefinedFiles(ss, list, name, word, digit);
    }
    forall s ensures name in CalledSources(s, References(ss, word), word, digit) <==>
                     IsC(name) && CompilesFile(s, name, References(ss, word), word, digit) {
      CalledFiles(s, name, References(ss, word), word, digit);
    }
    if name in CSources(ss, word, digit) {
      if list :| list in SourceNames(ss, word) && name in DefinedSources(Definitions(ss, list, word), digit) {
        var s :| s in ss && Assigns(s, list, word)
                 && Shows(AssignmentOf(s, word).value.definition.value, name, {}, digit);
        assert DefinesFile(s, name, word, digit);
      } else {
        var i :| 0 <= i < |ss| && name in CalledSources(ss[i], References(ss, word), word, digit);
        assert ss[i] in ss;
      }
    }
    if IsC(name) && Names(ss, name, word, digit) {
      var s :| s in ss &&
        (DefinesFile(s, name, word, digit) || CompilesFile(s, name, References(ss, word), word, digit));
      var i :| 0 <= i < |ss| && ss[i] == s;
      if DefinesFile(s, name, word, digit) {
        var list := AssignmentOf(s, word).value.name;
        assert Assigns(s, list, word) && list in SourceNames(ss, word);
        assert name in DefinedSources(Definitions(ss, list, word), digit);
      } else {
        assert name in CalledSources(ss[i], References(ss, word), word, digit);
      }
    }
  }

  predicate Supported(ss: seq<string>, installs: nat, libraries: nat, word: char -> bool, digit: char -> bool) {
    && HeadersOf(Definitions(ss, "public_headers", word)).Some?
    && (forall name :: name in SourceNames(ss, word) ==> DefinitionsOk(Definitions(ss, name, word), digit))
    && (forall i :: 0 <= i < |ss| ==> CallsOk(ss[i], References(ss, word), word, digit))
    && Tally(ss, Installs) == 1 == installs
    && Tally(ss, Declares(word)) == libraries > 0
    && CSources(ss, word, digit) != {}
  }

  const INSTALL := {"install_headers"}
  const LIBRARY := {"static_library", "library"}

  /** A build file without comments is accepted: its statements are supported, and the calls found
      anywhere in its text are those its statements make. */
  predicate Accepted(clean: string, word: char -> bool, digit: char -> bool) {
    match Split(clean, '\n')
    case None => false
    case Some(ss) => Supported(ss, Calls(clean, INSTALL, word), Calls(clean, LIBRARY, word), word, digit)
  }

  // ---------------------------------------------------------------------------
  // The discovery

  /** The assignments hold the definitions of each name that has any. */
  ghost predicate Holds(assignments: map<string, seq<Definition>>, ss: seq<string>, word: char -> bool) {
    && (forall name :: Definitions(ss, name, word) == if name in assignments then assignments[name] else [])
    && forall name :: name in assignments ==> assignments[name] != []
  }

  lemma HoldsNext(before: map<string, seq<Definition>>, after: map<string, seq<Definition>>, ss: seq<string>, i: nat,
                  word: char -> bool)
    requires i < |ss| && Holds(before, ss[..i], word)
    requires match AssignmentOf(ss[i], word)
             case None => after == before
             case Some(a) =>
               after == before[a.name := (if a.name in before then before[a.name] else []) + [a.definition]]
    ensures Holds(after, ss[..i + 1], word)
  {
    hide AssignmentOf, Definitions;
    assert ss[..i + 1] == ss[..i] + [ss[i]];
    forall name ensures Definitions(ss[..i + 1], name, word) == if name in after then after[name] else [] {
      DefinitionsOfLast(ss[..i], ss[i], name, word);
      assert Definitions(ss[..i], name, word) + [] == Definitions(ss[..i], name, word);
    }
  }

  lemma DefinitionsOfLast(front: seq<string>, last: string, name: string, word: char -> bool)
    ensures Definitions(front + [last], name, word) == Definitions(front, name, word) + DefinitionIn(last, name, word)
  {
    assert (front + [last])[..|front|] == front;
  }

  datatype Inputs = Inputs(headers: seq<string>, sources: seq<string>)

  class Discovery {
    const word: char -> bool
    const evaluation: Evaluation
    var assignments: map<string, seq<Definition>>

    constructor (word: char -> bool, digit: char -> bool)
      ensures assignments == map[] && this.word == word
      ensures fresh(evaluation) && evaluation.cSources == {} && evaluation.digit == digit
    {
      this.word := word;
      evaluation := new Evaluation(digit);
      assignments := map[];
    }

    /** Collects the definitions of every name, in order. */
    method Assign(ss: seq<string>)
      requires assignments == map[]
      modifies `assignments
      ensures Holds(assignments, ss, word)
    {
      hide AssignmentOf, Holds;
      NothingHeld(word);
      for i := 0 to |ss|
        invariant Holds(assignments, ss[..i], word)
      {
        ghost var before := assignments;
        var a := AssignmentOf(ss[i], word);
        if a.Some? {
          var name := a.value.name;
          var earlier := if name in assignments then assignments[name] else [];
          assignments := assignments[name := earlier + [a.value.definition]];
        }
        HoldsNext(before, assignments, ss, i, word);
      }
      assert ss[..|ss|] == ss;
    }

    /** The header names of the one literal list. */
    method Headers() returns (r: Option<seq<string>>)
      ensures r == HeadersOf(if "public_headers" in assignments then assignments["public_headers"] else [])
    {
      hide Split, IsHeader, Quoted, HeaderList;
      var definitions := if "public_headers" in assignments then assignments["public_headers"] else [];
      if |definitions| != 1 || definitions[0].appended {
        return None;
      }
      var list := HeaderList(definitions[0].value);
      if list.None? {
        return None;
      }
      var parts := SplitC(list.value, ',');
      if parts.None? {
        return None;
      }
      var names: seq<string> := [];
      for i := 0 to |parts.value|
        invariant HeaderNames(parts.value[..i]) == Some(names)
      {
        assert parts.value[..i + 1][..i] == parts.value[..i];
        if !IsHeader(parts.value[i]) {
          NamesPrefixFails(parts.value, i + 1);
          return None;
        }
        HeaderIsQuoted(parts.value[i]);
        names := names + [Quoted(parts.value[i]).value];
      }
      assert parts.value[..|parts.value|] == parts.value;
      if names == [] || !Distinct(names) {
        return None;
      }
      return Some(names);
    }

    /** Evaluates the definitions of one source list. */
    method SourceList(definitions: seq<Definition>) returns (ok: bool)
      requires definitions != []
      modifies evaluation`cSources
      ensures ok <==> DefinitionsOk(definitions, evaluation.digit)
      ensures ok ==> evaluation.cSources == old(evaluation.cSources) + DefinedSources(definitions, evaluation.digit)
    {
      hide Parse;
      if definitions[0].appended || exists i :: 1 <= i < |definitions| && !definitions[i].appended {
        return false;
      }
      for i := 0 to |definitions|
        invariant forall j :: 0 <= j < i ==> Parse(definitions[j].value, {}, evaluation.digit).Some?
        invariant evaluation.cSources == old(evaluation.cSources) + DefinedSources(definitions[..i], evaluation.digit)
      {
        ok := evaluation.SourceExpression(definitions[i].value, {});
        if !ok {
          return;
        }
        DefinedNext(definitions, i, evaluation.digit);
      }
      assert definitions[..|definitions|] == definitions;
      return true;
    }

    /** Checks the arguments of the header installation. */
    method Installer(args: string) returns (ok: bool)
      ensures ok <==> InstallerOk(args, word)
    {
      hide Split, KeywordOf;
      var parts := SplitC(args, ',');
      return parts.Some? && parts.value != [] && parts.value[0] == "public_headers"
        && forall k :: 1 <= k < |parts.value| ==> KeywordOf(parts.value[k], word).Some?;
    }

    /** Evaluates the sources of a library declaration. */
    method Library(args: string, references: set<string>) returns (ok: bool)
      modifies evaluation`cSources
      ensures ok <==> LibraryOk(args, references, word, evaluation.digit)
      ensures ok ==> (evaluation.cSources ==
                        old(evaluation.cSources) + LibrarySources(args, references, word, evaluation.digit))
    {
      hide Split, Parse, Quoted, KeywordOf, Denotes;
      var parts := SplitC(args, ',');
      if parts.None? || parts.value == [] || Quoted(parts.value[0]).None? {
        return false;
      }
      ghost var digit := evaluation.digit;
      ghost var found: set<string> := {};
      for i := 1 to |parts.value|
        invariant forall k :: 1 <= k < i ==> ArgumentOk(parts.value[k], references, word, digit)
        invariant found == set k, x | 1 <= k < i && x in ArgumentDenotes(parts.value[k], references, word, digit) :: x
        invariant evaluation.cSources == old(evaluation.cSources) + found
      {
        var argument := parts.value[i];
        var keyword := KeywordOf(argument, word);
        found := found + ArgumentDenotes(argument, references, word, digit);
        if keyword.Some? && keyword.value.0 != "sources" {
          continue;
        }
        ok := evaluation.SourceExpression(if keyword.Some? then keyword.value.1 else argument, references);
        if !ok {
          return;
        }
      }
      return true;
    }
  }

  lemma NothingHeld(word: char -> bool)
    ensures Holds(map[], [], word)
  {
  }

  lemma {:induction false} NamesPrefixFails(parts: seq<string>, k: nat)
    requires k <= |parts| && HeaderNames(parts[..k]).None?
    ensures HeaderNames(parts).None?
    decreases |parts|
  {
    hide IsHeader, Quoted;
    if k == |parts| {
      assert parts[..k] == parts;
    } else {
      assert parts[..|parts| - 1][..k] == parts[..k];
      NamesPrefixFails(parts[..|parts| - 1], k);
    }
  }

  lemma HeaderIsQuoted(part: string)
    requires IsHeader(part)
    ensures Quoted(part).Some?
  {
  }

  lemma DefinedNext(definitions: seq<Definition>, i: nat, digit: char -> bool)
    requires i < |definitions| && Parse(definitions[i].value, {}, digit).Some?
    ensures DefinedSources(definitions[..i + 1], digit) ==
            DefinedSources(definitions[..i], digit) + Denotes(Parse(definitions[i].value, {}, digit).value)
  {
    hide Parse, Denotes;
    var more, less := definitions[..i + 1], definitions[..i];
    forall x ensures x in DefinedSources(more, digit) <==>
                       x in DefinedSources(less, digit) || x in Denotes(Parse(definitions[i].value, {}, digit).value) {
      assert more[i] == definitions[i];
      assert forall j :: 0 <= j < i ==> more[j] == less[j];
    }
  }

  predicate Assigns(s: string, name: string, word: char -> bool) {
    AssignmentOf(s, word).Some? && AssignmentOf(s, word).value.name == name
  }

  lemma DefinesByAssigning(s: string, name: string, word: char -> bool)
    ensures DefinitionIn(s, name, word) != [] <==> Assigns(s, name, word)
  {
    hide AssignmentOf;
  }

  lemma {:induction false} DefinedNames(ss: seq<string>, name: string, word: char -> bool)
    ensures Definitions(ss, name, word) != [] <==> exists s :: s in ss && Assigns(s, name, word)
  {
    hide DefinitionIn, Assigns;
    if ss != [] {
      var n := |ss| - 1;
      DefinedNames(ss[..n], name, word);
      DefinesByAssigning(ss[n], name, word);
      assert ss == ss[..n] + [ss[n]];
    }
  }

  /** The sources a discovery has found for a set of lists. */
  ghost predicate ListsRead(ss: seq<string>, names: set<string>, found: set<string>, word: char -> bool,
                            digit: char -> bool) {
    && (forall name :: name in names ==> DefinitionsOk(Definitions(ss, name, word), digit))
    && found == set name, x | name in names && x in DefinedSources(Definitions(ss, name, word), digit) :: x
  }

  lemma ListRead(ss: seq<string>, names: set<string>, name: string, found: set<string>, word: char -> bool,
                 digit: char -> bool)
    requires ListsRead(ss, names, found, word, digit) && DefinitionsOk(Definitions(ss, name, word), digit)
    ensures ListsRead(ss, names + {name}, found + DefinedSources(Definitions(ss, name, word), digit), word, digit)
  {
    hide DefinitionsOk, DefinedSources;
  }

  ghost predicate CallsRead(ss: seq<string>, n: nat, references: set<string>, found: set<string>, installed: nat,
                            libraries: nat, word: char -> bool, digit: char -> bool)
    requires n <= |ss|
  {
    && (forall i :: 0 <= i < n ==> CallsOk(ss[i], references, word, digit))
    && found == (set i, x | 0 <= i < n && x in CalledSources(ss[i], references, word, digit) :: x)
    && installed == Tally(ss[..n], Installs)
    && libraries == Tally(ss[..n], Declares(word))
  }

  lemma CallRead(ss: seq<string>, n: nat, references: set<string>, found: set<string>, installed: nat, libraries: nat,
                 word: char -> bool, digit: char -> bool)
    requires n < |ss| && CallsRead(ss, n, references, found, installed, libraries, word, digit)
    requires CallsOk(ss[n], references, word, digit)
    ensures CallsRead(ss, n + 1, references, found + CalledSources(ss[n], references, word, digit),
                      installed + (if InstallerOf(ss[n]).Some? then 1 else 0),
                      libraries + (if LibraryOf(ss[n], word).Some? then 1 else 0),
                      word, digit)
  {
    hide CallsOk, CalledSources, InstallerOf, LibraryOf;
    assert ss[..n + 1][..n] == ss[..n];
  }

  /** The elements of a set in some order. */
  method Listing(s: set<string>) returns (r: seq<string>)
    ensures forall x :: x in r <==> x in s
  {
    var rest := s;
    r := [];
    while rest != {}
      invariant rest <= s && forall x :: x in r <==> x in s - rest
      decreases rest
    {
      var x :| x in rest;
      r, rest := r + [x], rest - {x};
    }
  }

  /** The headers and the sorted C sources of a build file, or nothing if it is outside the
      supported subset. */
  method MesonInputs(text: string, word: char -> bool, digit: char -> bool) returns (r: Option<Inputs>)
    ensures var clean := Uncommented(text);
            && (r.Some? <==> Accepted(clean, word, digit))
            && (r.Some? ==>
                  var ss := Split(clean, '\n').value;
                  && Some(r.value.headers) == HeadersOf(Definitions(ss, "public_headers", word))
                  && StrictlySorted(r.value.sources)
                  && forall x :: x in r.value.sources <==> IsC(x) && Names(ss, x, word, digit))
  {
    hide Split, Uncommented, HeadersOf, DefinitionsOk, DefinedSources, AssignmentOf, InstallerOk, LibraryOk,
      InstallerOf, LibraryOf, Calls, Names, IsC, LibrarySources, Definitions, Tally, CallsRead, ListsRead;
    var clean := Uncommented(text);
    var split := SplitC(clean, '\n');
    if split.None? {
      return None;
    }
    var ss := split.value;
    var discovery := new Discovery(word, digit);
    discovery.Assign(ss);
    var headers := discovery.Headers();
    if headers.None? {
      return None;
    }
    var names := set name | name in discovery.assignments && EndsWith(name, "sources");
    NamesOfSources(ss, names, discovery.assignments, word);
    var lists := ReadLists(discovery, ss, names);
    if !lists {
      return None;
    }
    ghost var listed := discovery.evaluation.cSources;
    var references := names + {"public_headers"};
    var calls, called := ReadCalls(discovery, ss, references);
    if calls.None? {
      return None;
    }
    var (installed, libraries) := calls.value;
    SourcesFound(ss, listed, called, installed, libraries, word, digit);
    if installed != 1 || Calls(clean, INSTALL, word) != installed {
      return None;
    }
    if libraries == 0 || libraries != Calls(clean, LIBRARY, word) {
      return None;
    }
    if discovery.evaluation.cSources == {} {
      return None;
    }
    var listing := Listing(discovery.evaluation.cSources);
    SortedSetLists(listing);
    forall x ensures x in discovery.evaluation.cSources <==> IsC(x) && Names(ss, x, word, digit) {
      SourcesAreNamed(ss, x, word, digit);
    }
    return Some(Inputs(headers.value, SortedSet(listing)));
  }

  lemma NamesOfSources(ss: seq<string>, names: set<string>, assignments: map<string, seq<Definition>>,
                       word: char -> bool)
    requires Holds(assignments, ss, word)
    requires names == set name | name in assignments && EndsWith(name, "sources")
    ensures names == SourceNames(ss, word)
  {
    hide AssignmentOf, EndsWith, Definitions;
    forall name ensures name in names <==> name in SourceNames(ss, word) {
      DefinedNames(ss, name, word);
      if name in SourceNames(ss, word) {
        var i :| 0 <= i < |ss| && Assigns(ss[i], name, word);
      }
      if s :| s in ss && Assigns(s, name, word) {
        var i :| 0 <= i < |ss| && ss[i] == s;
      }
    }
  }

  lemma {:induction false} SourcesFound(ss: seq<string>, listed: set<string>, called: set<string>, installed: nat,
                                        libraries: nat, word: char -> bool, digit: char -> bool)
    requires ListsRead(ss, SourceNames(ss, word), listed, word, digit)
    requires CallsRead(ss, |ss|, References(ss, word), called, installed, libraries, word, digit)
    ensures listed + called == CSources(ss, word, digit)
    ensures installed == Tally(ss, Installs) && libraries == Tally(ss, Declares(word))
    ensures forall name :: name in SourceNames(ss, word) ==> DefinitionsOk(Definitions(ss, name, word), digit)
    ensures forall i :: 0 <= i < |ss| ==> CallsOk(ss[i], References(ss, word), word, digit)
  {
    hide DefinitionsOk, DefinedSources, CallsOk, CalledSources, InstallerOf, LibraryOf;
    assert ss[..|ss|] == ss;
  }

  method ReadLists(discovery: Discovery, ss: seq<string>, names: set<string>) returns (ok: bool)
    requires discovery.evaluation.cSources == {} && names <= discovery.assignments.Keys
    requires Holds(discovery.assignments, ss, discovery.word)
    modifies discovery.evaluation`cSources
    ensures ok <==> forall name :: name in names ==>
              DefinitionsOk(Definitions(ss, name, discovery.word), discovery.evaluation.digit)
    ensures ok ==> ListsRead(ss, names, discovery.evaluation.cSources, discovery.word, discovery.evaluation.digit)
  {
    hide DefinitionsOk, DefinedSources, Definitions, ListsRead;
    ghost var word, digit := discovery.word, discovery.evaluation.digit;
    var rest := names;
    ghost var done: set<string> := {};
    NoLists(ss, word, digit);
    while rest != {}
      invariant done + rest == names && ListsRead(ss, done, discovery.evaluation.cSources, word, digit)
      invariant forall name :: name in done ==> DefinitionsOk(Definitions(ss, name, word), digit)
      decreases rest
    {
      var name :| name in rest;
      ghost var before := discovery.evaluation.cSources;
      ok := discovery.SourceList(discovery.assignments[name]);
      if !ok {
        return;
      }
      ListRead(ss, done, name, before, word, digit);
      rest, done := rest - {name}, done + {name};
    }
    assert done == names;
    return true;
  }

  lemma NoLists(ss: seq<string>, word: char -> bool, digit: char -> bool)
    ensures ListsRead(ss, {}, {}, word, digit)
  {
  }

  method ReadCalls(discovery: Discovery, ss: seq<string>, references: set<string>)
    returns (r: Option<(nat, nat)>, ghost called: set<string>)
    modifies discovery.evaluation`cSources
    ensures r.Some? <==> forall i :: 0 <= i < |ss| ==>
              CallsOk(ss[i], references, discovery.word, discovery.evaluation.digit)
    ensures r.Some? ==> discovery.evaluation.cSources == old(discovery.evaluation.cSources) + called
    ensures r.Some? ==> CallsRead(ss, |ss|, references, called, r.value.0, r.value.1, discovery.word,
                                  discovery.evaluation.digit)
  {
    hide InstallerOf, LibraryOf, InstallerOk, LibraryOk, LibrarySources, CallsRead;
    ghost var word, digit := discovery.word, discovery.evaluation.digit;
    var installed, libraries := 0, 0;
    called := {};
    NoCalls(ss, references, word, digit);
    for i := 0 to |ss|
      invariant forall j :: 0 <= j < i ==> CallsOk(ss[j], references, word, digit)
      invariant discovery.evaluation.cSources == old(discovery.evaluation.cSources) + called
      invariant CallsRead(ss, i, references, called, installed, libraries, word, digit)
    {
      ghost var was := (installed, libraries);
      var installer := InstallerOf(ss[i]);
      if installer.Some? {
        var ok := discovery.Installer(installer.value);
        if !ok {
          return None, called;
        }
        installed := installed + 1;
      }
      var library := LibraryOf(ss[i], discovery.word);
      if library.Some? {
        var ok := discovery.Library(library.value, references);
        if !ok {
          return None, called;
        }
        libraries := libraries + 1;
      }
      CallRead(ss, i, references, called, was.0, was.1, word, digit);
      called := called + CalledSources(ss[i], references, word, digit);
    }
    return Some((installed, libraries)), called;
  }

  lemma NoCalls(ss: seq<string>, references: set<string>, word: char -> bool, digit: char -> bool)
    ensures CallsRead(ss, 0, references, {}, 0, 0, word, digit)
  {
  }
}
