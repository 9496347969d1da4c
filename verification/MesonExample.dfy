/** A build file that is accepted, and two orders of its statements that are not. */
module MesonExample {
  import opened Sequences
  import opened Options
  import opened Lexer
  import opened Text
  import opened Splitter
  import opened SplitterLaws
  import opened SplitStability
  import opened CArray
  import opened Meson
  import opened MesonGrammar
  import opened MesonLayout
  import opened MesonInputs
  import opened MesonText
  import opened MesonCalls
  import opened MesonLaws

  /** Seven statements: the header list, a source list assigned and extended, the installation, a
      library, an expression in parentheses and an assignment. */
  datatype Build = Build(headers: string, plain: string, extended: string, installed: string, library: string,
                         bare: string, tail: string) {
    function Calling(): seq<string> { [installed, library] }

    function Ordered(): seq<string> { [headers, plain, extended] + (Calling() + [bare, tail]) }

    /** The source list is extended before it is assigned. */
    function Extended(): seq<string> { [headers, extended, plain] + (Calling() + [bare, tail]) }

    /** The assignment ends with the name of a call, which the parenthesis opens. */
    function Crossed(): seq<string> { [headers, plain, extended] + (Calling() + [tail, bare]) }
  }

  const EXAMPLE := Build("public_headers=['h.h']", "xsources=['a.c']", "xsources+=['b.c']",
                         "install_headers(public_headers)", "library('x')", "(x)", "q=library")

  // ---------------------------------------------------------------------------
  // The statements

  lemma NoCall(s: string, name: string)
    requires s != "" && name != "" && s[0] != name[0]
    ensures CallOf(s, name) == None
  {
  }

  lemma NoLibraryCall(s: string)
    requires s != "" && s[0] != 's' && s[0] != 'l'
    ensures LibraryCall(s) == None
  {
    NoCall(s, "static_library");
    NoCall(s, "library");
  }

  lemma NoLibrary(s: string, word: char -> bool)
    requires s != "" && LibraryCall(s) == None
    requires var n := WordRun(s, word); n < |s| && !IsSpace(s[n]) && (s[n] == '=' ==> n + 1 < |s| && s[n + 1] == '[')
    ensures LibraryOf(s, word) == None
  {
    hide LibraryCall, CallOf, WordRun, SkipSpace;
    var n := WordRun(s, word);
    SkipOf(s, n, 0);
    if s[n] == '=' {
      SkipOf(s, n + 1, 0);
      assert s[n + 1..][0] == '[';
      NoLibraryCall(s[n + 1..]);
    }
  }

  /** An assignment of a list is an assignment only. */
  lemma AssignmentOnly(name: string, appended: bool, value: string, word: char -> bool)
    requires Letters(word) && IsWordOf(name) && name[0] !in "ils" && value != "" && value[0] == '['
    ensures AssignmentOf(name + (if appended then "+=" else "=") + value, word) ==
              Some(Assignment(name, Definition(appended, value)))
    ensures InstallerOf(name + (if appended then "+=" else "=") + value) == None
    ensures LibraryOf(name + (if appended then "+=" else "=") + value, word) == None
  {
    var op := if appended then "+=" else "=";
    var s := name + op + value;
    hide AssignmentOf, LibraryOf, LibraryCall, CallOf, WordRun;
    assert name + "" + op + "" + value == s;
    WrittenAssignmentReads(name, "", appended, "", value, word);
    assert s == name + (op + value);
    RunOfName(name, op + value, word);
    assert s[0] == name[0] && s[|name|] == op[0];
    assert !appended ==> s[|name| + 1] == value[0];
    NoCall(s, "install_headers");
    NoLibraryCall(s);
    NoLibrary(s, word);
  }

  /** A call is a call only. */
  lemma CallOnly(name: string, args: string, word: char -> bool)
    requires Letters(word) && IsWordOf(name)
    ensures var s := name + "(" + args + ")";
            AssignmentOf(s, word) == None && CallOf(s, name) == Some(args) && LibraryOf(s, word) == LibraryCall(s)
  {
    var s := name + "(" + args + ")";
    hide CallOf, LibraryCall;
    assert name + "" + "(" + args + ")" == s;
    WrittenCallReads(name, "", args);
    assert s == name + ("(" + args + ")");
    RunOfName(name, "(" + args + ")", word);
    assert s[|name|] == '(' && SkipSpace(s, |name|) == |name|;
  }

  /** What the statements are. */
  ghost predicate Reads(f: Build, word: char -> bool) {
    && AssignmentOf(f.headers, word) == Some(Assignment("public_headers", Definition(false, "['h.h']")))
    && AssignmentOf(f.plain, word) == Some(Assignment("xsources", Definition(false, "['a.c']")))
    && AssignmentOf(f.extended, word) == Some(Assignment("xsources", Definition(true, "['b.c']")))
    && AssignmentOf(f.installed, word) == None && AssignmentOf(f.library, word) == None
    && InstallerOf(f.headers) == InstallerOf(f.plain) == InstallerOf(f.extended) == InstallerOf(f.library) == None
    && LibraryOf(f.headers, word) == LibraryOf(f.plain, word) == None
    && LibraryOf(f.extended, word) == LibraryOf(f.installed, word) == None
    && InstallerOf(f.installed) == Some("public_headers") && LibraryOf(f.library, word) == Some("'x'")
    && AssignmentOf(f.bare, word) == None
    && AssignmentOf(f.tail, word) == Some(Assignment("q", Definition(false, "library")))
    && InstallerOf(f.bare) == InstallerOf(f.tail) == None
    && LibraryOf(f.bare, word) == LibraryOf(f.tail, word) == None
  }

  lemma AssignmentsRead(word: char -> bool)
    requires Letters(word)
    ensures var f := EXAMPLE;
            && AssignmentOf(f.headers, word) == Some(Assignment("public_headers", Definition(false, "['h.h']")))
            && AssignmentOf(f.plain, word) == Some(Assignment("xsources", Definition(false, "['a.c']")))
            && AssignmentOf(f.extended, word) == Some(Assignment("xsources", Definition(true, "['b.c']")))
            && InstallerOf(f.headers) == InstallerOf(f.plain) == InstallerOf(f.extended) == None
            && LibraryOf(f.headers, word) == LibraryOf(f.plain, word) == LibraryOf(f.extended, word) == None
  {
    hide AssignmentOf, LibraryOf, InstallerOf;
    AssignmentOnly("public_headers", false, "['h.h']", word);
    assert EXAMPLE.headers == "public_headers" + "=" + "['h.h']";
    AssignmentOnly("xsources", false, "['a.c']", word);
    assert EXAMPLE.plain == "xsources" + "=" + "['a.c']";
    AssignmentOnly("xsources", true, "['b.c']", word);
    assert EXAMPLE.extended == "xsources" + "+=" + "['b.c']";
  }

  lemma InstallationReads(word: char -> bool)
    requires Letters(word)
    ensures var s := EXAMPLE.installed;
            AssignmentOf(s, word) == None && InstallerOf(s) == Some("public_headers") && LibraryOf(s, word) == None
  {
    hide AssignmentOf, LibraryOf, LibraryCall, CallOf;
    CallOnly("install_headers", "public_headers", word);
    assert EXAMPLE.installed == "install_headers" + "(" + "public_headers" + ")";
    NoLibraryCall(EXAMPLE.installed);
  }

  lemma LibraryReads(word: char -> bool)
    requires Letters(word)
    ensures var s := EXAMPLE.library;
            AssignmentOf(s, word) == None && InstallerOf(s) == None && LibraryOf(s, word) == Some("'x'")
  {
    hide AssignmentOf, LibraryOf, CallOf;
    CallOnly("library", "'x'", word);
    assert EXAMPLE.library == "library" + "(" + "'x'" + ")";
    NoCall(EXAMPLE.library, "static_library");
    NoCall(EXAMPLE.library, "install_headers");
  }

  lemma BareReads(word: char -> bool)
    requires Letters(word)
    ensures var s := "(x)"; AssignmentOf(s, word) == None && InstallerOf(s) == None && LibraryOf(s, word) == None
  {
    NoCall("(x)", "install_headers");
    NoLibraryCall("(x)");
  }

  lemma TailReads(word: char -> bool)
    requires Letters(word)
    ensures var s := "q=library";
            && AssignmentOf(s, word) == Some(Assignment("q", Definition(false, "library")))
            && InstallerOf(s) == None && LibraryOf(s, word) == None
  {
    var s := "q=library";
    hide AssignmentOf, LibraryCall, CallOf;
    assert "q" + "" + "=" + "" + "library" == s;
    WrittenAssignmentReads("q", "", false, "", "library", word);
    NoCall(s, "install_headers");
    NoLibraryCall(s);
    assert s == "q" + "=library";
    RunOfName("q", "=library", word);
    SkipOf(s, 1, 0);
    SkipOf(s, 2, 0);
    assert s[2..] == "library";
    LibraryAlone();
  }

  lemma LibraryAlone()
    ensures LibraryCall("library") == None
  {
  }

  lemma ExampleReads(word: char -> bool)
    requires Letters(word)
    ensures Reads(EXAMPLE, word)
  {
    hide AssignmentOf, LibraryOf, InstallerOf;
    AssignmentsRead(word);
    InstallationReads(word);
    LibraryReads(word);
    BareReads(word);
    TailReads(word);
  }

  // ---------------------------------------------------------------------------
  // Their parts

  function ListOf(name: string): Expr { Expr([List([Expr([File(name)])])]) }

  /** A list of one file is read as such. */
  lemma ListOfFile(name: string, digit: char -> bool)
    requires Ordinary({}, digit) && IsFile(name, ".c") && forall k :: 0 <= k < |name| ==> !IsQuote(name[k])
    ensures Parse("['" + name + "']", {}, digit) == Some(ListOf(name)) && Denotes(ListOf(name)) == {name}
  {
    hide Parse, Denotes, Print, IsFile, Ordinary, Grammatical;
    PrintedList(name);
    ListIsGrammatical(name, digit);
    PrintedExpressionReads(ListOf(name), {}, digit);
    ListDenotes(name);
  }

  lemma ListIsGrammatical(name: string, digit: char -> bool)
    requires IsFile(name, ".c") && forall k :: 0 <= k < |name| ==> !IsQuote(name[k])
    ensures Grammatical(ListOf(name), {}, digit)
  {
    hide IsFile, IsQuote;
    assert GrammaticalTerm(File(name), {}, digit);
    assert Grammatical(Expr([File(name)]), {}, digit);
    assert GrammaticalTerm(List([Expr([File(name)])]), {}, digit);
  }

  lemma PrintedList(name: string)
    ensures Print(ListOf(name)) == "['" + name + "']"
  {
    var inner := Expr([File(name)]);
    PrintedAlone(File(name));
    PrintedAlone(List([inner]));
    PrintedMember(inner);
    assert FormText(SimpleForm(File(name))) == ['\''] + name + ['\''];
    hide Print, FormText, SimpleForm;
    assert "[" + (['\''] + name + ['\'']) + "]" == "['" + name + "']";
  }

  lemma PrintedMember(e: Expr)
    ensures FormText(SimpleForm(List([e]))) == "[" + Print(e) + "]"
  {
    hide Write, Simple;
    assert [e][..0] == [];
    assert MemberTexts(SimpleMembers([e])) == [Print(e)];
  }

  /** A single term is printed as such. */
  lemma PrintedAlone(t: Term)
    ensures Print(Expr([t])) == FormText(SimpleForm(t))
  {
    hide FormText, SimpleForm;
    assert [t][..0] == [];
    var text := FormText(SimpleForm(t));
    assert PlaceTexts(SimplePlaces([t])) == ["" + text + ""] && "" + text + "" == text;
  }

  lemma ListDenotes(name: string)
    requires IsFile(name, ".c")
    ensures Denotes(ListOf(name)) == {name}
  {
    var inner := Expr([File(name)]);
    assert [inner][..0] == [] && [File(name)][..0] == [] && [List([inner])][..0] == [];
    assert DenotesTerms([]) == {} && DenotesItems([]) == {};
    assert DenotesTerm(File(name)) == {name};
    assert Denotes(inner) == {name} && DenotesItems([inner]) == {name};
    assert DenotesTerm(List([inner])) == {name};
  }

  lemma OneField(field: string)
    requires IsField(field, ',')
    ensures Split(field, ',') == Some([field])
  {
    hide Split, IsField;
    assert Join([field], ',') == field;
    JoinedFieldsSplit([field], ',');
  }

  lemma QuotedField(name: string)
    requires name != "" && name[|name| - 1] != '\\' && forall k :: 0 <= k < |name| ==> !IsQuote(name[k])
    ensures Split("'" + name + "'", ',') == Some(["'" + name + "'"]) && Quoted("'" + name + "'") == Some(name)
  {
    hide Split;
    QuotedReads('\'', name, ',');
    var part := "'" + name + "'";
    OneField(part);
    assert part[1..|part| - 1] == name;
    forall k | 1 <= k < |part| - 1 ensures !IsQuote(part[k]) {
      assert part[k] == name[k - 1];
    }
  }

  lemma HeaderIsRead()
    ensures HeadersOf([Definition(false, "['h.h']")]) == Some(["h.h"])
  {
    hide Split, Quoted, IsHeader;
    var value := "['h.h']";
    assert value[1..|value| - 1] == "'h.h'" && HeaderList(value) == Some("'h.h'");
    QuotedField("h.h");
    var part := "'h.h'";
    assert part == "'" + "h.h" + "'";
    OneHeader(part);
    assert [part][..0] == [] && HeaderNames([]) == Some([]);
    assert [] + ["h.h"] == ["h.h"];
    assert HeaderNames([part]) == Some(["h.h"]);
  }

  lemma OneHeader(part: string)
    requires Quoted(part) == Some("h.h")
    ensures IsHeader(part)
  {
    assert "h.h"[1..] == ".h";
  }

  lemma CallsAreOk(f: Build, references: set<string>, word: char -> bool, digit: char -> bool)
    requires Reads(f, word)
    ensures forall s :: s in f.Ordered() ==> CallsOk(s, references, word, digit)
  {
    hide InstallerOf, LibraryOf, InstallerOk, LibraryOk, AssignmentOf;
    InstallationIsOk(word);
    LibraryIsOk(references, word, digit);
  }

  lemma InstallationIsOk(word: char -> bool)
    ensures InstallerOk("public_headers", word)
  {
    hide Split, KeywordOf;
    PlainNameIsField("public_headers", ',');
    OneField("public_headers");
  }

  lemma LibraryIsOk(references: set<string>, word: char -> bool, digit: char -> bool)
    ensures LibraryOk("'x'", references, word, digit)
  {
    hide Split, KeywordOf, Quoted, Parse;
    assert "'x'" == "'" + "x" + "'";
    QuotedField("x");
  }

  lemma {:induction false} DefinitionsAppend(a: seq<string>, b: seq<string>, name: string, word: char -> bool)
    ensures Definitions(a + b, name, word) == Definitions(a, name, word) + Definitions(b, name, word)
  {
    hide DefinitionIn, Definitions;
    if b == [] {
      NoDefinitions(name, word);
      assert a + b == a;
    } else {
      var n := |b| - 1;
      DefinitionsAppend(a, b[..n], name, word);
      DefinitionsOfLast(a + b[..n], b[n], name, word);
      DefinitionsOfLast(b[..n], b[n], name, word);
      assert a + b == (a + b[..n]) + [b[n]] && b == b[..n] + [b[n]];
    }
  }

  lemma NoDefinitions(name: string, word: char -> bool)
    ensures Definitions([], name, word) == []
  {
  }

  lemma ThreeDefinitions(a: string, b: string, c: string, rest: seq<string>, name: string, word: char -> bool)
    requires forall s :: s in rest ==> !Assigns(s, name, word)
    ensures Definitions([a, b, c] + rest, name, word) ==
            DefinitionIn(a, name, word) + DefinitionIn(b, name, word) + DefinitionIn(c, name, word)
  {
    hide DefinitionIn, Definitions, Assigns;
    NoDefinitions(name, word);
    DefinedNames(rest, name, word);
    assert [] + [a] == [a] && [a] + [b] == [a, b] && [a, b] + [c] == [a, b, c];
    DefinitionsOfLast([], a, name, word);
    DefinitionsOfLast([a], b, name, word);
    DefinitionsOfLast([a, b], c, name, word);
    DefinitionsAppend([a, b, c], rest, name, word);
  }

  lemma RestDefines(f: Build, rest: seq<string>, name: string, word: char -> bool)
    requires Reads(f, word) && name != "q"
    requires rest == f.Calling() + [f.bare, f.tail] || rest == f.Calling() + [f.tail, f.bare]
    ensures forall s :: s in rest ==> !Assigns(s, name, word)
  {
    hide AssignmentOf, InstallerOf, LibraryOf;
  }

  /** The two names, without their letters. */
  lemma DefinitionsOfBuild(f: Build, word: char -> bool, headers: string, sources: string)
    requires Reads(f, word) && headers == "public_headers" && sources == "xsources" && headers != sources
    requires headers != "q" && sources != "q"
    ensures Definitions(f.Ordered(), headers, word) == [Definition(false, "['h.h']")]
    ensures Definitions(f.Ordered(), sources, word) == [Definition(false, "['a.c']"), Definition(true, "['b.c']")]
    ensures Definitions(f.Extended(), sources, word) == [Definition(true, "['b.c']"), Definition(false, "['a.c']")]
  {
    hide AssignmentOf, Definitions, InstallerOf, LibraryOf;
    var rest := f.Calling() + [f.bare, f.tail];
    RestDefines(f, rest, headers, word);
    RestDefines(f, rest, sources, word);
    hide Assigns;
    ThreeDefinitions(f.headers, f.plain, f.extended, rest, headers, word);
    ThreeDefinitions(f.headers, f.plain, f.extended, rest, sources, word);
    ThreeDefinitions(f.headers, f.extended, f.plain, rest, sources, word);
  }

  lemma NamesDiffer()
    ensures "public_headers" != "xsources" && EndsWith("xsources", "sources") && !EndsWith("public_headers", "sources")
    ensures "public_headers" != "q" && "xsources" != "q" && !EndsWith("q", "sources")
  {
    assert "public_headers"[0] != "xsources"[0];
    assert "xsources"[1..] == "sources";
    assert "public_headers"[7..][0] != "sources"[0];
  }

  lemma NamesOfBuild(f: Build, ss: seq<string>, word: char -> bool)
    requires Reads(f, word) && Permuted(f.Ordered(), ss)
    ensures SourceNames(ss, word) == {"xsources"}
  {
    NamesDiffer();
    hide AssignmentOf, EndsWith, InstallerOf, LibraryOf;
    PermutedMembers(f.Ordered(), ss);
    NamesByMember(ss, word);
    assert f.plain in f.Ordered() && NamesList(f.plain, "xsources", word);
    forall s, name | s in f.Ordered() && NamesList(s, name, word) ensures name == "xsources" {
    }
  }

  /** One installation and one library. */
  lemma OneOfEach(f: Build, p: string -> bool)
    ensures Tally(f.Ordered(), p) ==
              (if p(f.headers) then 1 else 0) + (if p(f.plain) then 1 else 0) + (if p(f.extended) then 1 else 0)
              + (if p(f.installed) then 1 else 0) + (if p(f.library) then 1 else 0)
              + (if p(f.bare) then 1 else 0) + (if p(f.tail) then 1 else 0)
  {
    hide Tally;
    var g, e, d := [f.tail], [f.bare, f.tail], [f.library, f.bare, f.tail];
    var c := [f.installed] + d;
    assert g == [f.tail] + [] && e == [f.bare] + g && d == [f.library] + e && c == f.Calling() + [f.bare, f.tail];
    var b, a := [f.extended] + c, [f.plain] + ([f.extended] + c);
    assert f.Ordered() == [f.headers] + a;
    NothingTallied(p);
    TallyCons(f.tail, [], p);
    TallyCons(f.bare, g, p);
    TallyCons(f.library, e, p);
    TallyCons(f.installed, d, p);
    TallyCons(f.extended, c, p);
    TallyCons(f.plain, b, p);
    TallyCons(f.headers, a, p);
  }

  lemma NothingTallied(p: string -> bool)
    ensures Tally([], p) == 0
  {
  }

  // ---------------------------------------------------------------------------
  // The statements in a text

  lemma GroupReads(head: string, open: char, inner: string, d: char)
    requires IsFlat(head, d) && ReadsAnywhere(inner, d) && IsOpen(open) && IsSeparator(d)
    ensures ReadsAnywhere(head + ([open] + inner + [Closer(open)]), d)
  {
    var close := [Closer(open)];
    var t := [open] + inner + close;
    forall x: string ensures Runs(t, x, "", d) == Some("") {
      assert "" + close == close && close[..0] == "";
      RunsChar(open, (inner + close) + x, "", d);
      RunsChar(Closer(open), x, close, d);
      hide Step, TokenLength, ReadsAnywhere;
      RunsOfReads(inner, close + x, close, d);
      RunsAppend(inner, close, x, close, d);
      RunsAppend([open], inner + close, x, "", d);
      assert t == [open] + (inner + close);
    }
    ReadsByRuns(t, d);
    FlatReads(head, d);
    hide ReadsAnywhere, IsFlat;
    AppendReads(head, t, d);
  }

  lemma QuotedNameReads(name: string, d: char)
    requires name != "" && name[|name| - 1] != '\\' && forall k :: 0 <= k < |name| ==> !IsQuote(name[k])
    ensures ReadsAnywhere("'" + name + "'", d)
  {
    QuotedReads('\'', name, d);
  }

  /** A field of a text split at its line ends, without a comment. */
  ghost predicate IsStatement(s: string) { IsField(s, '\n') && '#' !in s }

  /** A head, a bracket and a quoted or a plain text within it. */
  lemma GroupIsStatement(head: string, open: char, name: string, quoted: bool)
    requires IsFlat(head, '\n') && IsFlat(name, '\n') && IsOpen(open)
    requires name != "" && name[|name| - 1] != '\\' && (head != "" ==> !IsSpace(head[0]))
    requires '#' !in head && '#' !in name
    ensures IsStatement(head + ([open] + (if quoted then "'" + name + "'" else name) + [Closer(open)]))
  {
    var d := '\n';
    hide ReadsAnywhere;
    FlatReads(name, d);
    QuotedNameReads(name, d);
    GroupReads(head, open, if quoted then "'" + name + "'" else name, d);
  }

  lemma ListIsStatement(head: string, name: string)
    requires IsFlat(head, '\n') && IsFlat(name, '\n') && head != "" && !IsSpace(head[0])
    requires name != "" && name[|name| - 1] != '\\' && '#' !in head && '#' !in name
    ensures IsStatement(head + ("['" + name + "']"))
  {
    GroupIsStatement(head, '[', name, true);
    assert "[" + ("'" + name + "'") + "]" == "['" + name + "']";
  }

  lemma HeadersAreStatement()
    ensures IsStatement(EXAMPLE.headers)
  {
    hide IsStatement;
    ListIsStatement("public_headers=", "h.h");
    assert "public_headers=" + "['h.h']" == EXAMPLE.headers && "['" + "h.h" + "']" == "['h.h']";
  }

  lemma SourcesAreStatements()
    ensures IsStatement(EXAMPLE.plain) && IsStatement(EXAMPLE.extended)
  {
    hide IsStatement;
    ListIsStatement("xsources=", "a.c");
    ListIsStatement("xsources+=", "b.c");
    assert "xsources=" + "['a.c']" == EXAMPLE.plain && "['" + "a.c" + "']" == "['a.c']";
    assert "xsources+=" + "['b.c']" == EXAMPLE.extended && "['" + "b.c" + "']" == "['b.c']";
  }

  lemma InstallationIsStatement()
    ensures IsStatement(EXAMPLE.installed)
  {
    hide IsStatement;
    GroupIsStatement("install_headers", '(', "public_headers", false);
    assert "install_headers" + ("(" + "public_headers" + ")") == EXAMPLE.installed;
  }

  lemma OthersAreStatements()
    ensures IsStatement(EXAMPLE.library) && IsStatement(EXAMPLE.bare) && IsStatement(EXAMPLE.tail)
  {
    hide IsStatement;
    GroupIsStatement("library", '(', "x", true);
    GroupIsStatement("", '(', "x", false);
    assert "library" + ("(" + ("'" + "x" + "'") + ")") == EXAMPLE.library;
    assert "" + ("(" + "x" + ")") == EXAMPLE.bare;
    FlatIsStatement(EXAMPLE.tail);
  }

  lemma FlatIsStatement(t: string)
    requires IsFlat(t, '\n') && t != "" && Trimmed(t) && '#' !in t
    ensures IsStatement(t)
  {
    hide ReadsAnywhere;
    FlatReads(t, '\n');
  }

  /** A text without comments and with these statements. */
  function TextOf(ss: seq<string>): string { Join(ss, '\n') }

  /** The text has no comments, and these are its statements. */
  ghost predicate IsTextOf(text: string, ss: seq<string>) {
    Uncommented(text) == text && Split(text, '\n') == Some(ss)
  }

  lemma TextSplits(ss: seq<string>)
    requires forall s :: s in ss ==> IsStatement(s)
    ensures IsTextOf(TextOf(ss), ss)
  {
    hide IsField, Split, Uncommented;
    forall k | 0 <= k < |ss| ensures IsField(ss[k], '\n') {
      assert IsStatement(ss[k]);
    }
    JoinedFieldsSplit(ss, '\n');
    NoRemarkJoined(ss);
    NothingIsRemoved(TextOf(ss));
  }

  lemma {:induction false} NoRemarkJoined(ss: seq<string>)
    requires forall s :: s in ss ==> '#' !in s
    ensures '#' !in Join(ss, '\n')
  {
    if |ss| > 1 {
      NoRemarkJoined(ss[1..]);
    }
  }

  // ---------------------------------------------------------------------------
  // The calls its statements show

  /** A parenthesis that nothing precedes opens no call. */
  lemma NoCallShown(s: string, names: set<string>, word: char -> bool)
    requires AreNames(names) && forall k :: 1 <= k < |s| ==> s[k] != '('
    ensures Calls(s, names, word) == 0
  {
    hide CountCalls;
    forall i | 0 <= i < |s| + 1 ensures !IsCall(s, i, names, word) {
      forall name | name in names ensures !Opens(s[i..], name) {
        assert IsWordOf(name) && forall j :: 0 <= j < |s[i..]| ==> s[i..][j] == s[i + j];
      }
    }
    CountNone(s, 0, |s| + 1, names, word);
    NothingCounted(s, names, word);
  }

  lemma OnlyCall(name: string, args: string, i: nat, other: string, word: char -> bool)
    requires Letters(word) && IsWordOf(name) && IsWordOf(other) && '(' !in args && i <= |name| + 2 + |args|
    ensures CallAt(name + "(" + args + ")", i, other, word) <==> i == 0 && other == name
  {
    var s := name + "(" + args + ")";
    var n := |name|;
    assert s[..n] == name && s[n] == '(';
    assert forall k :: 0 <= k < |s| && k != n ==> s[k] != '(';
    assert forall k :: 0 <= k < n ==> s[k] == name[k] && IsLetter(s[k]);
    var q := s[i..];
    if i == 0 && other == name {
      assert q == s;
      SkipOf(q, n, 0);
    }
    if CallAt(s, i, other, word) {
      var j := SkipSpace(q, |other|);
      assert q[j] == s[i + j] && i + j == n;
      assert forall k :: 0 <= k < j ==> q[k] == s[i + k] && !IsSpace(q[k]);
      assert j == |other|;
      assert i == 0 && q[..n] == other;
    }
  }

  lemma OneCallShown(name: string, args: string, names: set<string>, word: char -> bool)
    requires Letters(word) && IsWordOf(name) && AreNames(names) && '(' !in args
    ensures Calls(name + "(" + args + ")", names, word) == if name in names then 1 else 0
  {
    var s := name + "(" + args + ")";
    hide CountCalls, CallAt, Letters, IsWordOf;
    forall i | 0 <= i < |s| + 1 ensures IsCall(s, i, names, word) <==> i == 0 && name in names {
      forall other | other in names ensures CallAt(s, i, other, word) <==> i == 0 && other == name {
        OnlyCall(name, args, i, other, word);
      }
    }
    CountNone(s, 1, |s| + 1, names, word);
    FirstCounted(s, names, word);
  }

  lemma FirstCounted(s: string, names: set<string>, word: char -> bool)
    ensures CountCalls(s, 1, names, word) == if IsCall(s, 0, names, word) then 1 else 0
  {
    hide IsCall;
    assert CountCalls(s, 0, names, word) == 0;
  }

  /** Whether the statements of the file make the calls they show. */
  ghost predicate Shows(f: Build, word: char -> bool) {
    forall s :: s in f.Ordered() ==> Direct(s, INSTALL, Installs, word) && Direct(s, LIBRARY, Declares(word), word)
  }

  lemma NoCallsAreDirect(s: string, word: char -> bool)
    requires InstallerOf(s) == None && LibraryOf(s, word) == None && forall k :: 1 <= k < |s| ==> s[k] != '('
    ensures Direct(s, INSTALL, Installs, word) && Direct(s, LIBRARY, Declares(word), word)
  {
    CallNames();
    hide InstallerOf, LibraryOf, Calls, AreNames;
    NoCallShown(s, INSTALL, word);
    NoCallShown(s, LIBRARY, word);
  }

  lemma CallsAreDirect(word: char -> bool)
    requires Letters(word) && Reads(EXAMPLE, word)
    ensures var s := EXAMPLE.installed; Direct(s, INSTALL, Installs, word) && Direct(s, LIBRARY, Declares(word), word)
    ensures var s := EXAMPLE.library; Direct(s, INSTALL, Installs, word) && Direct(s, LIBRARY, Declares(word), word)
  {
    CallNames();
    hide InstallerOf, LibraryOf, AssignmentOf, Calls, AreNames;
    assert IsWordOf("install_headers") && IsWordOf("library");
    assert EXAMPLE.installed == "install_headers" + "(" + "public_headers" + ")";
    assert EXAMPLE.library == "library" + "(" + "'x'" + ")";
    OneCallShown("install_headers", "public_headers", INSTALL, word);
    OneCallShown("install_headers", "public_headers", LIBRARY, word);
    OneCallShown("library", "'x'", INSTALL, word);
    OneCallShown("library", "'x'", LIBRARY, word);
    assert "library"[0] != "install_headers"[0] && "static_library"[0] != "install_headers"[0];
  }

  lemma ExampleShows(word: char -> bool)
    requires Letters(word) && Reads(EXAMPLE, word)
    ensures Shows(EXAMPLE, word)
  {
    hide InstallerOf, LibraryOf, AssignmentOf, Direct;
    CallsAreDirect(word);
    NoCallsAreDirect(EXAMPLE.headers, word);
    NoCallsAreDirect(EXAMPLE.plain, word);
    NoCallsAreDirect(EXAMPLE.extended, word);
    NoCallsAreDirect(EXAMPLE.bare, word);
    NoCallsAreDirect(EXAMPLE.tail, word);
  }

  lemma EndsInLetter(s: string, names: set<string>, word: char -> bool)
    requires AreNames(names) && s != "" && !IsLetter(s[|s| - 1])
    ensures !Dangles(s, names, word)
  {
    forall name | name in names ensures !EndsIn(s, name, word) {
      assert IsLetter(name[|name| - 1]);
    }
  }

  lemma ExampleIsApart(names: set<string>, word: char -> bool)
    requires AreNames(names)
    ensures Apart(EXAMPLE.Ordered(), names, word) && Apart(EXAMPLE.Extended(), names, word)
  {
    hide AreNames, Dangles;
    EndsInLetter(EXAMPLE.headers, names, word);
    EndsInLetter(EXAMPLE.plain, names, word);
    EndsInLetter(EXAMPLE.extended, names, word);
    EndsInLetter(EXAMPLE.installed, names, word);
    EndsInLetter(EXAMPLE.library, names, word);
    EndsInLetter(EXAMPLE.bare, names, word);
  }

  lemma TailDangles(word: char -> bool)
    requires Letters(word)
    ensures !Apart(EXAMPLE.Crossed(), LIBRARY, word)
  {
    var s := EXAMPLE.tail;
    assert s[2..] == "library" && AtBoundary(s, 2, word);
    assert EndsIn(s, "library", word);
    assert Dangles(s, LIBRARY, word);
    hide Dangles;
    assert Crosses(s, EXAMPLE.bare, LIBRARY, word);
    assert EXAMPLE.Crossed()[5] == s && EXAMPLE.Crossed()[6] == EXAMPLE.bare;
  }

  lemma SourceListsAreOk(digit: char -> bool)
    requires Ordinary({}, digit)
    ensures var ds := [Definition(false, "['a.c']"), Definition(true, "['b.c']")];
            DefinitionsOk(ds, digit) && "a.c" in DefinedSources(ds, digit)
  {
    hide Parse, Denotes, Ordinary;
    assert "a.c"[1..] == ".c" && "b.c"[1..] == ".c";
    assert IsFile("a.c", ".c") && IsFile("b.c", ".c");
    ListOfFile("a.c", digit);
    ListOfFile("b.c", digit);
    assert "['" + "a.c" + "']" == "['a.c']" && "['" + "b.c" + "']" == "['b.c']";
    var ds := [Definition(false, "['a.c']"), Definition(true, "['b.c']")];
    assert ds[0].value == "['a.c']" && ds[1].value == "['b.c']";
  }

  lemma ExampleIsSupported(f: Build, word: char -> bool, digit: char -> bool)
    requires Reads(f, word) && Ordinary({}, digit)
    ensures Supported(f.Ordered(), 1, 1, word, digit)
    ensures Tally(f.Ordered(), Installs) == 1 == Tally(f.Ordered(), Declares(word))
  {
    NamesDiffer();
    hide Definitions, SourceNames, InstallerOf, LibraryOf, AssignmentOf, CallsOk, Tally, DefinitionsOk, DefinedSources,
      HeadersOf, CalledSources, EndsWith, Ordinary;
    DefinitionsOfBuild(f, word, "public_headers", "xsources");
    NamesOfBuild(f, f.Ordered(), word);
    HeaderIsRead();
    CallsAreOk(f, References(f.Ordered(), word), word, digit);
    OneOfEach(f, Installs);
    OneOfEach(f, Declares(word));
    SourceListsAreOk(digit);
    assert "a.c" in CSources(f.Ordered(), word, digit);
  }

  lemma ListExchanged(f: Build)
    ensures Permuted(f.Ordered(), f.Extended())
  {
    hide Permuted;
    var left, right := [f.headers], f.Calling() + [f.bare, f.tail];
    assert f.Ordered() == left + ([f.plain] + [f.extended]) + right;
    assert f.Extended() == left + ([f.extended] + [f.plain]) + right;
    SwapPermutes(left, [f.plain], [f.extended], right);
  }

  lemma TailExchanged(f: Build)
    ensures Permuted(f.Ordered(), f.Crossed())
  {
    hide Permuted;
    var left := [f.headers, f.plain, f.extended] + f.Calling();
    assert f.Ordered() == left + ([f.bare] + [f.tail]) + [];
    assert f.Crossed() == left + ([f.tail] + [f.bare]) + [];
    SwapPermutes(left, [f.bare], [f.tail], []);
  }

  lemma SwapPermutes(left: seq<string>, x: seq<string>, y: seq<string>, right: seq<string>)
    ensures Permuted(left + (x + y) + right, left + (y + x) + right)
  {
  }

  lemma ExtendedTooEarly(f: Build, word: char -> bool, headers: string, sources: string)
    requires Reads(f, word) && headers == "public_headers" && sources == "xsources" && headers != sources
    requires headers != "q" && sources != "q"
    ensures !AssignedFirst(f.Extended(), word)
  {
    ListExchanged(f);
    DefinitionsOfBuild(f, word, headers, sources);
    NamesOfBuild(f, f.Extended(), word);
    hide Definitions, SourceNames, Reads;
    assert Definitions(f.Extended(), sources, word)[0].appended;
  }

  lemma TextsSplit()
    ensures IsTextOf(TextOf(EXAMPLE.Ordered()), EXAMPLE.Ordered())
    ensures IsTextOf(TextOf(EXAMPLE.Extended()), EXAMPLE.Extended())
    ensures IsTextOf(TextOf(EXAMPLE.Crossed()), EXAMPLE.Crossed())
  {
    HeadersAreStatement();
    SourcesAreStatements();
    InstallationIsStatement();
    OthersAreStatements();
    hide IsStatement, EXAMPLE, TextOf, IsTextOf;
    TextSplits(EXAMPLE.Ordered());
    TextSplits(EXAMPLE.Extended());
    TextSplits(EXAMPLE.Crossed());
  }

  lemma BuildIsAccepted(f: Build, word: char -> bool, digit: char -> bool)
    requires Letters(word) && Ordinary({}, digit) && Reads(f, word) && Shows(f, word)
    requires NeighboursApart(f.Ordered(), word) && Split(TextOf(f.Ordered()), '\n') == Some(f.Ordered())
    ensures Accepted(TextOf(f.Ordered()), word, digit)
  {
    var ss := f.Ordered();
    ShowsAll(f, word);
    ExampleIsSupported(f, word, digit);
    hide Split, Accepted, Supported, TextOf, Reads, Shows, NeighboursApart, AllDirect, Tally, Ordinary;
    AcceptedByStatements(TextOf(ss), word, digit);
  }

  lemma ShowsAll(f: Build, word: char -> bool)
    requires Shows(f, word)
    ensures AllDirect(f.Ordered(), word)
  {
    hide Direct;
    forall i | 0 <= i < |f.Ordered()|
      ensures Direct(f.Ordered()[i], INSTALL, Installs, word) && Direct(f.Ordered()[i], LIBRARY, Declares(word), word)
    {
      assert f.Ordered()[i] in f.Ordered();
    }
  }

  lemma ExampleIsAccepted(word: char -> bool, digit: char -> bool)
    requires Letters(word) && Ordinary({}, digit) && Reads(EXAMPLE, word)
    ensures Accepted(TextOf(EXAMPLE.Ordered()), word, digit)
  {
    CallNames();
    hide Split, Uncommented, Accepted, Supported, EXAMPLE, TextOf, Reads, Shows, Direct, Apart, Letters, Ordinary;
    ExampleShows(word);
    ExampleIsApart(INSTALL, word);
    ExampleIsApart(LIBRARY, word);
    TextsSplit();
    BuildIsAccepted(EXAMPLE, word, digit);
  }

  /** This text is accepted; extending the source list before it is assigned makes it unsupported,
      and so does moving the last assignment before the parenthesis. */
  lemma {:induction false} SomeReorderingsAreRejected(word: char -> bool, digit: char -> bool)
    requires Letters(word) && Ordinary({}, digit)
    ensures IsTextOf(TextOf(EXAMPLE.Ordered()), EXAMPLE.Ordered()) && Accepted(TextOf(EXAMPLE.Ordered()), word, digit)
    ensures var ss := EXAMPLE.Extended();
            IsTextOf(TextOf(ss), ss) && Permuted(EXAMPLE.Ordered(), ss) && !Accepted(TextOf(ss), word, digit)
    ensures var ss := EXAMPLE.Crossed();
            IsTextOf(TextOf(ss), ss) && Permuted(EXAMPLE.Ordered(), ss) && !Accepted(TextOf(ss), word, digit)
  {
    NamesDiffer();
    TailDangles(word);
    TextsSplit();
    hide Split, Uncommented, Accepted, EXAMPLE, Reads, Letters, Ordinary, EndsWith, Permuted, AssignedFirst,
      Apart, TextOf;
    ExampleReads(word);
    ExampleIsAccepted(word, digit);
    ListExchanged(EXAMPLE);
    TailExchanged(EXAMPLE);
    ExtendedTooEarly(EXAMPLE, word, "public_headers", "xsources");
    StatementOrderIsImmaterial(TextOf(EXAMPLE.Ordered()), TextOf(EXAMPLE.Extended()), word, digit);
    StatementOrderIsImmaterial(TextOf(EXAMPLE.Ordered()), TextOf(EXAMPLE.Crossed()), word, digit);
  }
}
