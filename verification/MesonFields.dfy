/** What a build file must hold to be accepted, by the texts of its statements. */
module MesonFields {
  import opened Options
  import opened Lexer
  import opened Text
  import opened Splitter
  import opened Meson
  import opened MesonInputs
  import opened MesonText

  // ---------------------------------------------------------------------------
  // Literals

  predicate IsMark(c: char) { c == '"' || c == '\'' }

  predicate WithoutMarks(s: string) { '"' !in s && '\'' !in s }

  /** A name between two quotation marks, which need not be the same. */
  ghost predicate IsQuoted(part: string, name: string) {
    name != "" && WithoutMarks(name) && exists a: char, b: char :: IsMark(a) && IsMark(b) && part == [a] + name + [b]
  }

  lemma QuotedByText(part: string, name: string)
    ensures Quoted(part) == Some(name) <==> IsQuoted(part, name)
  {
    if Quoted(part) == Some(name) {
      assert part == [part[0]] + name + [part[|part| - 1]];
      assert forall k :: 0 <= k < |name| ==> name[k] == part[k + 1];
      assert IsMark(part[0]) && IsMark(part[|part| - 1]);
    }
    if IsQuoted(part, name) {
      var a: char, b: char :| IsMark(a) && IsMark(b) && part == [a] + name + [b];
      assert part[1..|part| - 1] == name;
      forall k | 1 <= k < |part| - 1 ensures !IsQuote(part[k]) {
        assert part[k] == name[k - 1] && name[k - 1] in name;
      }
    }
  }

  /** Something, a dot and the letter. */
  ghost predicate HasEnding(name: string, letter: char) {
    exists stem: string :: stem != "" && name == stem + "." + [letter]
  }

  lemma EndingByText(name: string)
    ensures IsFile(name, ".c") <==> HasEnding(name, 'c')
    ensures IsFile(name, ".h") <==> HasEnding(name, 'h')
  {
    if |name| > 2 {
      var stem := name[..|name| - 2];
      assert name == stem + name[|name| - 2..];
      if name[|name| - 2..] == ".c" {
        assert name == stem + "." + ['c'];
      }
      if name[|name| - 2..] == ".h" {
        assert name == stem + "." + ['h'];
      }
    }
    if stem: string :| stem != "" && name == stem + "." + ['c'] {
      assert name[|name| - 2..] == ".c";
    }
    if stem: string :| stem != "" && name == stem + "." + ['h'] {
      assert name[|name| - 2..] == ".h";
    }
  }

  /** A file literal is a quoted name of a C source or header. */
  lemma {:induction false} FileByText(part: string, name: string)
    ensures FileLiteral(part) == Some(name) <==>
              IsQuoted(part, name) && (HasEnding(name, 'c') || HasEnding(name, 'h'))
  {
    QuotedByText(part, name);
    EndingByText(name);
    hide Quoted, IsQuoted, IsFile, HasEnding;
  }

  /** A generated target by its name, or one of its outputs: the name and digits in brackets. */
  ghost predicate IsTarget(part: string, digit: char -> bool) {
    exists name: string :: IsTargetName(name) &&
      (part == name || exists number: string ::
                         number != "" && (forall c :: c in number ==> digit(c)) && part == name + "[" + number + "]")
  }

  predicate IsTargetName(name: string) {
    || name == "enums" || name == "flatpak_gdbus" || name == "flatpak_document_gdbus"
    || name == "flatpak_permission_gdbus" || name == "systemd_gdbus" || name == "flatpak_variant"
    || name == "wl_security_context"
  }

  lemma TargetNames(name: string)
    ensures name in GENERATED <==> IsTargetName(name)
  {
  }

  lemma OutputByText(part: string, g: string, digit: char -> bool)
    ensures IsOutput(part, g, digit) <==>
              exists number: string ::
                number != "" && (forall c :: c in number ==> digit(c)) && part == g + "[" + number + "]"
  {
    if IsOutput(part, g, digit) {
      var number := part[|g| + 1..|part| - 1];
      assert part == g + "[" + number + "]";
      forall c | c in number ensures digit(c) {
        var k :| 0 <= k < |number| && number[k] == c;
        assert part[|g| + 1 + k] == c;
      }
    }
    if number: string :| number != "" && (forall c :: c in number ==> digit(c)) && part == g + "[" + number + "]" {
      assert part[..|g|] == g;
      forall k | |g| < k < |part| - 1 ensures digit(part[k]) {
        assert part[k] == number[k - |g| - 1] && number[k - |g| - 1] in number;
      }
    }
  }

  lemma {:induction false} GeneratedByText(part: string, digit: char -> bool)
    ensures IsGenerated(part, digit) <==> IsTarget(part, digit)
  {
    forall name: string ensures name in GENERATED <==> IsTargetName(name) {
      TargetNames(name);
    }
    forall g: string
      ensures IsOutput(part, g, digit) <==>
                exists number: string ::
                  number != "" && (forall c :: c in number ==> digit(c)) && part == g + "[" + number + "]"
    {
      OutputByText(part, g, digit);
    }
    hide GENERATED, IsTargetName, IsOutput;
  }

  // ---------------------------------------------------------------------------
  // Statements and arguments

  /** A name, whitespace, the operator, whitespace and the rest, which begins with none. */
  ghost predicate IsSplitAt(s: string, name: string, op: string, value: string, word: char -> bool) {
    && IsName(name, word) && (value != "" ==> !IsSpace(value[0]))
    && exists left: string, right: string ::
         AllSpace(left) && AllSpace(right) && s == name + left + op + right + value
  }

  lemma {:induction false} RunIsName(s: string, word: char -> bool)
    ensures forall k :: 0 <= k < WordRun(s, word) ==> word(s[k])
  {
    if s != "" && word(s[0]) {
      RunIsName(s[1..], word);
    }
  }

  lemma Skipped(s: string, i: nat)
    requires i <= |s|
    ensures var j := SkipSpace(s, i); AllSpace(s[i..j]) && (s[j..] != "" ==> !IsSpace(s[j..][0]))
  {
  }

  lemma RunNames(s: string, word: char -> bool)
    requires WordRun(s, word) > 0
    ensures IsName(s[..WordRun(s, word)], word)
  {
    RunIsName(s, word);
  }

  lemma Apart(s: string, n: nat, j: nat, m: nat, word: char -> bool, op: string)
    requires n == WordRun(s, word) && n > 0 && j == SkipSpace(s, n)
    requires j + |op| <= |s| && s[j..j + |op|] == op && m == SkipSpace(s, j + |op|)
    ensures IsSplitAt(s, s[..n], op, s[m..], word)
  {
    hide WordRun, SkipSpace, IsSpace, AllSpace, IsName, IsSplitAt;
    RunNames(s, word);
    Skipped(s, n);
    Skipped(s, j + |op|);
    SplitAt(s, n, j, m, op, word);
  }

  lemma SplitAt(s: string, n: nat, j: nat, m: nat, op: string, word: char -> bool)
    requires n <= j && j + |op| <= m <= |s| && s[j..j + |op|] == op && IsName(s[..n], word)
    requires AllSpace(s[n..j]) && AllSpace(s[j + |op|..m]) && (s[m..] != "" ==> !IsSpace(s[m..][0]))
    ensures IsSplitAt(s, s[..n], op, s[m..], word)
  {
    hide IsSpace, AllSpace, IsName, IsSplitAt;
    FivePieces(s, n, j, j + |op|, m, op);
    AreSplit(s, s[..n], s[n..j], op, s[j + |op|..m], s[m..], word);
  }

  lemma AreSplit(s: string, name: string, left: string, op: string, right: string, value: string, word: char -> bool)
    requires IsName(name, word) && (value != "" ==> !IsSpace(value[0])) && AllSpace(left) && AllSpace(right)
    requires s == name + left + op + right + value
    ensures IsSplitAt(s, name, op, value, word)
  {
  }

  lemma FivePieces(s: string, i: nat, j: nat, k: nat, m: nat, op: string)
    requires i <= j <= k <= m <= |s| && s[j..k] == op
    ensures s == s[..i] + s[i..j] + op + s[k..m] + s[m..]
  {
  }

  /** A statement is an assignment exactly if it is written as one. */
  lemma {:induction false} AssignmentByText(s: string, a: Assignment, word: char -> bool)
    requires Separates(word)
    ensures AssignmentOf(s, word) == Some(a) <==>
              IsSplitAt(s, a.name, if a.definition.appended then "+=" else "=", a.definition.value, word)
  {
    hide SkipSpace, WordRun;
    var op := if a.definition.appended then "+=" else "=";
    if AssignmentOf(s, word) == Some(a) {
      var j := SkipSpace(s, WordRun(s, word));
      assert s[j..j + |op|] == op;
      Apart(s, WordRun(s, word), j, SkipSpace(s, j + |op|), word, op);
    }
    if IsSplitAt(s, a.name, op, a.definition.value, word) {
      var left: string, right: string :|
        AllSpace(left) && AllSpace(right) && s == a.name + left + op + right + a.definition.value;
      WrittenAssignmentReads(a.name, left, a.definition.appended, right, a.definition.value, word);
    }
  }

  /** So is an argument with a keyword. */
  lemma {:induction false} KeywordByText(s: string, name: string, value: string, word: char -> bool)
    requires Separates(word)
    ensures KeywordOf(s, word) == Some((name, value)) <==> IsSplitAt(s, name, ":", value, word)
  {
    hide SkipSpace, WordRun;
    if KeywordOf(s, word) == Some((name, value)) {
      var j := SkipSpace(s, WordRun(s, word));
      assert s[j..j + 1] == ":";
      Apart(s, WordRun(s, word), j, SkipSpace(s, j + 1), word, ":");
    }
    if IsSplitAt(s, name, ":", value, word) {
      var left: string, right: string :| AllSpace(left) && AllSpace(right) && s == name + left + ":" + right + value;
      WrittenKeywordReads(name, left, right, value, word);
    }
  }

  /** A call of the function: its name, whitespace and the arguments in parentheses. */
  ghost predicate IsCallOf(s: string, name: string, args: string) {
    exists left: string :: AllSpace(left) && s == name + left + "(" + args + ")"
  }

  lemma {:induction false} CallByText(s: string, name: string, args: string)
    ensures CallOf(s, name) == Some(args) <==> IsCallOf(s, name, args)
  {
    if CallOf(s, name) == Some(args) {
      var j := SkipSpace(s, |name|);
      assert s == name + s[|name|..j] + "(" + args + ")";
      assert AllSpace(s[|name|..j]);
    }
    if left: string :| AllSpace(left) && s == name + left + "(" + args + ")" {
      WrittenCallReads(name, left, args);
    }
  }

  /** A library declaration: a call of one of the two functions, assigned to a name or not. */
  ghost predicate Declares(s: string, args: string, word: char -> bool) {
    || IsDeclaration(s, args)
    || exists name: string, value: string :: IsSplitAt(s, name, "=", value, word) && IsDeclaration(value, args)
  }

  ghost predicate IsDeclaration(s: string, args: string) {
    IsCallOf(s, "library", args) || IsCallOf(s, "static_library", args)
  }

  lemma DeclarationByText(s: string, args: string)
    ensures LibraryCall(s) == Some(args) <==> IsDeclaration(s, args)
  {
    CallByText(s, "library", args);
    CallByText(s, "static_library", args);
    if CallOf(s, "static_library").Some? {
      StaticIsNoLibrary(s);
    }
    hide CallOf, IsCallOf;
  }

  lemma StaticIsNoLibrary(s: string)
    requires StartsWith(s, "static_library")
    ensures CallOf(s, "library") == None
  {
    assert s[0] == "static_library"[0];
  }

  lemma NamedFirst(s: string, args: string, word: char -> bool)
    requires Separates(word) && LibraryCall(s).Some?
    ensures var n := WordRun(s, word); var j := SkipSpace(s, n); !(n > 0 && j < |s| && s[j] == '=')
  {
    var name := if CallOf(s, "static_library").Some? then "static_library" else "library";
    var k := SkipSpace(s, |name|);
    assert s[..|name|] == name && s[k] == '(';
    var n := WordRun(s, word);
    RunIsName(s, word);
    RunStops(s, word);
    forall i | 0 <= i < |name| ensures !IsSpace(s[i]) && s[i] != '=' {
      NoSpaceInName(name, i);
      assert s[i] == name[i];
    }
    assert !word('(');
    hide WordRun, LibraryCall, CallOf, Separates;
    assert n <= k;
    FirstMark(s, |name|, n);
  }

  /** Up to the parenthesis there is no equals sign. */
  lemma FirstMark(s: string, i: nat, n: nat)
    requires i <= |s| && n <= SkipSpace(s, i) < |s| && s[SkipSpace(s, i)] == '('
    requires forall k :: 0 <= k < i ==> !IsSpace(s[k]) && s[k] != '='
    ensures SkipSpace(s, n) < |s| && s[SkipSpace(s, n)] != '='
  {
    var j, k := SkipSpace(s, n), SkipSpace(s, i);
    OpensNoSpace();
    if n >= i {
      assert j == k;
    } else {
      assert j == n;
    }
  }

  lemma OpensNoSpace()
    ensures !IsSpace('(')
  {
  }

  lemma {:induction false} RunStops(s: string, word: char -> bool)
    ensures WordRun(s, word) < |s| ==> !word(s[WordRun(s, word)])
  {
    if s != "" && word(s[0]) {
      RunStops(s[1..], word);
    }
  }

  lemma NoSpaceInName(name: string, n: nat)
    requires (name == "static_library" || name == "library") && n < |name|
    ensures !IsSpace(name[n]) && name[n] != '='
  {
  }

  lemma EqualsNoSpace()
    ensures !IsSpace('=')
  {
  }

  lemma AssignedParts(name: string, left: string, right: string, value: string, word: char -> bool)
    requires Separates(word) && IsName(name, word) && AllSpace(left) && AllSpace(right)
    requires value != "" ==> !IsSpace(value[0])
    ensures var s := name + left + "=" + right + value; var n := WordRun(s, word); var j := SkipSpace(s, n);
            n > 0 && j < |s| && s[j] == '=' && s[SkipSpace(s, j + 1)..] == value
  {
    EqualsNoSpace();
    var op := "=";
    hide SkipSpace, WordRun, IsSpace, AllSpace;
    RunBefore(name, left, op, right, value, word);
    Scanned(name, left, op, right, value, word);
    var s := name + left + op + right + value;
    var j := |name| + |left|;
    assert s[j..j + 1][0] == s[j];
  }

  lemma AssignedValue(s: string, name: string, value: string, word: char -> bool)
    requires Separates(word) && IsSplitAt(s, name, "=", value, word)
    ensures var n := WordRun(s, word); var j := SkipSpace(s, n);
            n > 0 && j < |s| && s[j] == '=' && s[SkipSpace(s, j + 1)..] == value
  {
    hide SkipSpace, WordRun, IsSpace, AllSpace, IsName, Separates, IsSplitAt;
    var left, right := SplitParts(s, name, "=", value, word);
    AssignedParts(name, left, right, value, word);
  }

  lemma SplitParts(s: string, name: string, op: string, value: string, word: char -> bool)
    returns (left: string, right: string)
    requires IsSplitAt(s, name, op, value, word)
    ensures IsName(name, word) && (value != "" ==> !IsSpace(value[0])) && AllSpace(left) && AllSpace(right)
    ensures s == name + left + op + right + value
  {
    hide IsSpace, AllSpace, IsName;
    left, right :| AllSpace(left) && AllSpace(right) && s == name + left + op + right + value;
  }

  lemma NoAssignment(s: string, word: char -> bool)
    requires Separates(word)
    requires var n := WordRun(s, word); var j := SkipSpace(s, n); !(n > 0 && j < |s| && s[j] == '=')
    ensures forall name: string, value: string :: !IsSplitAt(s, name, "=", value, word)
  {
    hide SkipSpace, WordRun, IsSplitAt;
    forall name: string, value: string ensures !IsSplitAt(s, name, "=", value, word) {
      if IsSplitAt(s, name, "=", value, word) {
        AssignedValue(s, name, value, word);
      }
    }
  }

  lemma SomeAssignment(s: string, word: char -> bool)
    requires Separates(word)
    requires var n := WordRun(s, word); var j := SkipSpace(s, n); n > 0 && j < |s| && s[j] == '='
    ensures var n := WordRun(s, word); var j := SkipSpace(s, n); var v := s[SkipSpace(s, j + 1)..];
            && IsSplitAt(s, s[..n], "=", v, word)
            && forall name: string, value: string :: IsSplitAt(s, name, "=", value, word) ==> value == v
  {
    hide SkipSpace, WordRun, IsSplitAt;
    var j := SkipSpace(s, WordRun(s, word));
    assert s[j..j + 1] == "=";
    Apart(s, WordRun(s, word), j, SkipSpace(s, j + 1), word, "=");
    forall name: string, value: string | IsSplitAt(s, name, "=", value, word)
      ensures value == s[SkipSpace(s, j + 1)..]
    {
      AssignedValue(s, name, value, word);
    }
  }

  /** A statement declares a library exactly if it is written as such a call. */
  lemma {:induction false} LibraryByText(s: string, args: string, word: char -> bool)
    requires Separates(word)
    ensures LibraryOf(s, word) == Some(args) <==> Declares(s, args, word)
  {
    hide Declares, LibraryCall, LibraryOf, IsDeclaration, SkipSpace, WordRun, IsSplitAt, Separates;
    DeclarationByText(s, args);
    var n := WordRun(s, word);
    var j := SkipSpace(s, n);
    if n > 0 && j < |s| && s[j] == '=' {
      AssignedLibrary(s, args, n, j, word);
    } else {
      NoAssignment(s, word);
      DeclaredAlone(s, args, word);
      AloneLibrary(s, word);
    }
  }

  lemma AloneLibrary(s: string, word: char -> bool)
    requires var n := WordRun(s, word); var j := SkipSpace(s, n); !(n > 0 && j < |s| && s[j] == '=')
    ensures LibraryOf(s, word) == LibraryCall(s)
  {
    hide LibraryCall, SkipSpace, WordRun;
  }

  lemma BehindEquals(s: string, n: nat, j: nat, word: char -> bool)
    requires n == WordRun(s, word) > 0 && j == SkipSpace(s, n) && j < |s| && s[j] == '='
    ensures var value := s[SkipSpace(s, j + 1)..];
            LibraryOf(s, word) == if LibraryCall(value).Some? then LibraryCall(value) else LibraryCall(s)
  {
    hide LibraryCall, SkipSpace, WordRun;
  }

  lemma AssignedLibrary(s: string, args: string, n: nat, j: nat, word: char -> bool)
    requires Separates(word) && n == WordRun(s, word) > 0 && j == SkipSpace(s, n) && j < |s| && s[j] == '='
    ensures LibraryOf(s, word) == Some(args) <==> Declares(s, args, word)
  {
    hide Declares, LibraryCall, LibraryOf, IsDeclaration, SkipSpace, WordRun, IsSplitAt, Separates;
    if LibraryCall(s).Some? {
      NamedFirst(s, args, word);
    }
    BehindEquals(s, n, j, word);
    SomeAssignment(s, word);
    var value := s[SkipSpace(s, j + 1)..];
    DeclarationByText(value, args);
    DeclarationByText(s, args);
    AssignedDeclaration(s, args, s[..n], value, word);
  }

  lemma DeclaredAlone(s: string, args: string, word: char -> bool)
    requires forall n: string, v: string :: !IsSplitAt(s, n, "=", v, word)
    ensures Declares(s, args, word) <==> IsDeclaration(s, args)
  {
    hide IsDeclaration, IsSplitAt;
  }

  lemma AssignedDeclaration(s: string, args: string, name: string, value: string, word: char -> bool)
    requires IsSplitAt(s, name, "=", value, word)
    requires forall n: string, v: string :: IsSplitAt(s, n, "=", v, word) ==> v == value
    ensures Declares(s, args, word) <==> IsDeclaration(s, args) || IsDeclaration(value, args)
  {
    hide IsDeclaration, IsSplitAt;
  }

  // ---------------------------------------------------------------------------
  // Headers, source lists and the arguments of calls

  /** Quoted names of headers, part by part. */
  ghost predicate AreHeaders(parts: seq<string>, names: seq<string>) {
    |parts| == |names| && forall k :: 0 <= k < |parts| ==> IsQuoted(parts[k], names[k]) && HasEnding(names[k], 'h')
  }

  lemma HeaderByText(part: string, name: string)
    ensures IsHeader(part) && Quoted(part) == Some(name) <==> IsQuoted(part, name) && HasEnding(name, 'h')
  {
    QuotedByText(part, name);
    EndingByText(name);
    hide Quoted, IsQuoted, IsFile, HasEnding;
  }

  lemma {:induction false} HeaderNamesByParts(parts: seq<string>, names: seq<string>)
    ensures HeaderNames(parts) == Some(names) <==> AreHeaders(parts, names)
  {
    hide IsHeader, Quoted, IsQuoted, HasEnding;
    if parts != [] {
      var n, m := |parts| - 1, |names| - 1;
      if names != [] {
        HeaderNamesByParts(parts[..n], names[..m]);
        HeaderByText(parts[n], names[m]);
        assert names == names[..m] + [names[m]];
        if AreHeaders(parts, names) {
          assert AreHeaders(parts[..n], names[..m]);
          assert IsHeader(parts[n]) && Quoted(parts[n]) == Some(names[m]);
        }
      }
      if HeaderNames(parts) == Some(names) {
        var front := HeaderNames(parts[..n]).value;
        HeaderNamesByParts(parts[..n], front);
        HeaderIsQuoted(parts[n]);
        var name := Quoted(parts[n]).value;
        HeaderByText(parts[n], name);
        assert names == front + [name] && names[..n] == front;
      }
    }
  }

  /** The value is a list of quoted headers, in brackets and without another closing bracket. */
  ghost predicate ListsHeaders(value: string, names: seq<string>) {
    exists inner: string :: value == "[" + inner + "]" && ']' !in inner && Split(inner, ',').Some?
                            && AreHeaders(Split(inner, ',').value, names)
  }

  lemma HeaderListByText(value: string, inner: string)
    ensures HeaderList(value) == Some(inner) <==> value == "[" + inner + "]" && ']' !in inner
  {
    if HeaderList(value) == Some(inner) {
      assert value == "[" + inner + "]";
      assert forall k :: 0 <= k < |inner| ==> inner[k] == value[k + 1];
    }
    if value == "[" + inner + "]" && ']' !in inner {
      assert value[1..|value| - 1] == inner;
      forall k | 1 <= k < |value| - 1 ensures value[k] != ']' {
        assert value[k] == inner[k - 1] && inner[k - 1] in inner;
      }
    }
  }

  /** The headers are those of the one definition, a plain list of distinct names. */
  lemma {:induction false} HeadersByText(ds: seq<Definition>, names: seq<string>)
    ensures HeadersOf(ds) == Some(names) <==>
              && |ds| == 1 && !ds[0].appended && |names| > 0
              && (forall i, j :: 0 <= i < |names| && 0 <= j < |names| && names[i] == names[j] ==> i == j)
              && ListsHeaders(ds[0].value, names)
  {
    if |ds| == 1 {
      forall inner: string
        ensures HeaderList(ds[0].value) == Some(inner) <==> ds[0].value == "[" + inner + "]" && ']' !in inner
      {
        HeaderListByText(ds[0].value, inner);
      }
      hide HeaderList, Split, HeaderNames, AreHeaders;
      if HeaderList(ds[0].value).Some? && Split(HeaderList(ds[0].value).value, ',').Some? {
        HeaderNamesByParts(Split(HeaderList(ds[0].value).value, ',').value, names);
      }
    }
  }

  /** A source list: one plain definition, the first, and expressions only. */
  lemma {:induction false} ListByDefinitions(ds: seq<Definition>, digit: char -> bool)
    ensures DefinitionsOk(ds, digit) <==>
              && |ds| > 0
              && (forall i :: 0 <= i < |ds| ==> (ds[i].appended <==> i > 0))
              && forall d :: d in ds ==> Parse(d.value, {}, digit).Some?
  {
    hide Parse;
    if DefinitionsOk(ds, digit) {
      forall d | d in ds ensures Parse(d.value, {}, digit).Some? {
        var i :| 0 <= i < |ds| && ds[i] == d;
      }
    }
    assert forall i :: 0 <= i < |ds| ==> ds[i] in ds;
  }

  /** The header installation takes the header list and keyword arguments. */
  lemma {:induction false} InstallerByParts(args: string, word: char -> bool)
    requires Separates(word)
    ensures InstallerOk(args, word) <==>
              && Split(args, ',').Some?
              && var parts := Split(args, ',').value;
                 && |parts| > 0 && parts[0] == "public_headers"
                 && forall k :: 1 <= k < |parts| ==> HasKeyword(parts[k], word)
  {
    forall part: string ensures KeywordOf(part, word).Some? <==> HasKeyword(part, word) {
      KeywordSomehow(part, word);
    }
    hide Split, KeywordOf, HasKeyword;
  }

  ghost predicate HasKeyword(part: string, word: char -> bool) {
    exists name: string, value: string :: IsSplitAt(part, name, ":", value, word)
  }

  lemma KeywordSomehow(part: string, word: char -> bool)
    requires Separates(word)
    ensures KeywordOf(part, word).Some? <==> HasKeyword(part, word)
  {
    hide KeywordOf, IsSplitAt;
    if KeywordOf(part, word).Some? {
      var (name, value) := KeywordOf(part, word).value;
      KeywordByText(part, name, value, word);
    }
    if name: string, value: string :| IsSplitAt(part, name, ":", value, word) {
      KeywordByText(part, name, value, word);
    }
  }

  /** An argument of a library may be an expression, the keyword `sources` with one, or another keyword. */
  ghost predicate IsArgument(part: string, references: set<string>, word: char -> bool, digit: char -> bool) {
    if HasKeyword(part, word) then
      forall value: string :: IsSplitAt(part, "sources", ":", value, word) ==> Parse(value, references, digit).Some?
    else Parse(part, references, digit).Some?
  }

  lemma ArgumentByText(part: string, references: set<string>, word: char -> bool, digit: char -> bool)
    requires Separates(word)
    ensures ArgumentOk(part, references, word, digit) <==> IsArgument(part, references, word, digit)
  {
    KeywordSomehow(part, word);
    forall name: string, value: string
      ensures KeywordOf(part, word) == Some((name, value)) <==> IsSplitAt(part, name, ":", value, word)
    {
      KeywordByText(part, name, value, word);
    }
    hide KeywordOf, IsSplitAt, Parse;
  }

  /** A library declaration takes a quoted name and such arguments. */
  lemma {:induction false} LibraryByParts(args: string, references: set<string>, word: char -> bool,
                                          digit: char -> bool)
    requires Separates(word)
    ensures LibraryOk(args, references, word, digit) <==>
              && Split(args, ',').Some?
              && var parts := Split(args, ',').value;
                 && |parts| > 0 && (exists name: string :: IsQuoted(parts[0], name))
                 && forall k :: 1 <= k < |parts| ==> IsArgument(parts[k], references, word, digit)
  {
    forall part: string
      ensures ArgumentOk(part, references, word, digit) <==> IsArgument(part, references, word, digit)
    {
      ArgumentByText(part, references, word, digit);
    }
    forall part: string, name: string ensures Quoted(part) == Some(name) <==> IsQuoted(part, name) {
      QuotedByText(part, name);
    }
    hide Split, ArgumentOk, IsArgument, IsQuoted, Quoted;
    if Split(args, ',').Some? && |Split(args, ',').value| > 0 && Quoted(Split(args, ',').value[0]).Some? {
      assert IsQuoted(Split(args, ',').value[0], Quoted(Split(args, ',').value[0]).value);
    }
  }

  // ---------------------------------------------------------------------------
  // Counting

  /** The places of the statements for which something holds. */
  ghost function Places(ss: seq<string>, p: string -> bool): set<int> { set i | 0 <= i < |ss| && p(ss[i]) }

  lemma PlacesSnoc(front: seq<string>, last: string, p: string -> bool)
    ensures Places(front + [last], p) == Places(front, p) + (if p(last) then {|front|} else {})
    ensures |front| !in Places(front, p)
  {
    var ss := front + [last];
    assert ss[|front|] == last && forall i :: 0 <= i < |front| ==> ss[i] == front[i];
  }

  /** The statements for which something holds are counted by their places. */
  lemma {:induction false} TallyIsSize(ss: seq<string>, p: string -> bool)
    ensures Tally(ss, p) == |Places(ss, p)|
  {
    if ss == [] {
      assert Places(ss, p) == {};
    } else {
      var n := |ss| - 1;
      TallyIsSize(ss[..n], p);
      PlacesSnoc(ss[..n], ss[n], p);
      assert ss == ss[..n] + [ss[n]];
      hide Places;
    }
  }

  /** A call begins at a place where a word begins or ends, with the name, whitespace and a parenthesis. */
  lemma {:induction false} CallAtByText(s: string, i: nat, name: string, word: char -> bool)
    requires i <= |s|
    ensures CallAt(s, i, name, word) <==>
              && ((i > 0 && word(s[i - 1])) != (i < |s| && word(s[i])))
              && exists left: string, rest: string :: AllSpace(left) && s[i..] == name + left + "(" + rest
  {
    OpensByText(s[i..], name);
    hide Opens;
  }

  lemma OpensByText(s: string, name: string)
    ensures Opens(s, name) <==>
              exists left: string, rest: string :: AllSpace(left) && s == name + left + "(" + rest
  {
    if Opens(s, name) {
      var j := SkipSpace(s, |name|);
      assert s == name + s[|name|..j] + "(" + s[j + 1..];
      assert AllSpace(s[|name|..j]);
    }
    if left: string, rest: string :| AllSpace(left) && s == name + left + "(" + rest {
      var j := |name| + |left|;
      assert s[..|name|] == name && s[j] == '(' && forall k :: |name| <= k < j ==> s[k] == left[k - |name|];
      SkipOf(s, |name|, |left|);
    }
  }

  /** The calls in a text are counted by their places. */
  lemma {:induction false} CallsAreCounted(s: string, n: nat, names: set<string>, word: char -> bool)
    requires n <= |s| + 1
    ensures CountCalls(s, n, names, word) == |CallPlaces(s, n, names, word)|
  {
    hide CallPlaces, IsCall, HasCall, CallAt;
    if n == 0 {
      NoPlaces(s, names, word);
    } else {
      CallsAreCounted(s, n - 1, names, word);
      OneMorePlace(s, n - 1, names, word);
    }
  }

  ghost function CallPlaces(s: string, n: nat, names: set<string>, word: char -> bool): set<int> {
    set i | 0 <= i < n && HasCall(s, i, names, word)
  }

  lemma NoPlaces(s: string, names: set<string>, word: char -> bool)
    ensures CallPlaces(s, 0, names, word) == {}
  {
  }

  lemma OneMorePlace(s: string, n: nat, names: set<string>, word: char -> bool)
    requires n <= |s|
    ensures CallPlaces(s, n + 1, names, word) ==
              CallPlaces(s, n, names, word) + (if IsCall(s, n, names, word) then {n} else {})
    ensures n !in CallPlaces(s, n, names, word)
  {
    hide CallAt;
    assert HasCall(s, n, names, word) <==> IsCall(s, n, names, word);
    hide HasCall, IsCall;
  }

  ghost predicate HasCall(s: string, i: int, names: set<string>, word: char -> bool) {
    0 <= i <= |s| && exists name :: name in names && CallAt(s, i, name, word)
  }

  // ---------------------------------------------------------------------------
  // The whole file

  ghost predicate InstallsHeaders(s: string) { exists args: string :: IsCallOf(s, "install_headers", args) }

  ghost predicate DeclaresLibrary(s: string, word: char -> bool) { exists args: string :: Declares(s, args, word) }

  /** The places of the installations, and of the library declarations. */
  ghost function InstallationPlaces(ss: seq<string>): set<int> { set i | 0 <= i < |ss| && InstallsHeaders(ss[i]) }

  ghost function LibraryPlaces(ss: seq<string>, word: char -> bool): set<int> {
    set i | 0 <= i < |ss| && DeclaresLibrary(ss[i], word)
  }

  /** What a supported file holds: the headers; sound source lists; one installation and some libraries with
      sound arguments, and as many calls of their functions in the text; and the name of a C file. */
  ghost predicate IsSupported(clean: string, ss: seq<string>, word: char -> bool, digit: char -> bool) {
    && HeadersOf(Definitions(ss, "public_headers", word)).Some?
    && (forall s, a :: s in ss && AssignmentOf(s, word) == Some(a) && EndsWith(a.name, "sources") ==>
          DefinitionsOk(Definitions(ss, a.name, word), digit))
    && (forall s, args :: s in ss && IsCallOf(s, "install_headers", args) ==> InstallerOk(args, word))
    && (forall s, args :: s in ss && Declares(s, args, word) ==> LibraryOk(args, References(ss, word), word, digit))
    && |InstallationPlaces(ss)| == 1 && Calls(clean, {"install_headers"}, word) == 1
    && |LibraryPlaces(ss, word)| > 0
    && Calls(clean, {"static_library", "library"}, word) == |LibraryPlaces(ss, word)|
    && exists name: string :: IsC(name) && MesonInputs.Names(ss, name, word, digit)
  }

  lemma PlacesAreTallies(ss: seq<string>, word: char -> bool)
    requires Separates(word)
    ensures Tally(ss, Installs) == |InstallationPlaces(ss)|
    ensures Tally(ss, MesonInputs.Declares(word)) == |LibraryPlaces(ss, word)|
  {
    TallyIsSize(ss, Installs);
    TallyIsSize(ss, MesonInputs.Declares(word));
    SameInstallations(ss);
    SameDeclarations(ss, word);
    hide Tally, Places, InstallationPlaces, LibraryPlaces;
  }

  lemma SameInstallations(ss: seq<string>)
    ensures Places(ss, Installs) == InstallationPlaces(ss)
  {
    hide Installs, InstallsHeaders;
    forall i | 0 <= i < |ss| ensures Installs(ss[i]) <==> InstallsHeaders(ss[i]) {
      InstallationSomehow(ss[i]);
    }
  }

  lemma SameDeclarations(ss: seq<string>, word: char -> bool)
    requires Separates(word)
    ensures Places(ss, MesonInputs.Declares(word)) == LibraryPlaces(ss, word)
  {
    hide DeclaresLibrary, LibraryOf;
    forall i | 0 <= i < |ss| ensures MesonInputs.Declares(word)(ss[i]) <==> DeclaresLibrary(ss[i], word) {
      LibrarySomehow(ss[i], word);
    }
  }

  lemma InstallationSomehow(s: string)
    ensures Installs(s) <==> InstallsHeaders(s)
    ensures forall args: string :: InstallerOf(s) == Some(args) <==> IsCallOf(s, "install_headers", args)
  {
    hide CallOf, IsCallOf;
    forall args: string ensures InstallerOf(s) == Some(args) <==> IsCallOf(s, "install_headers", args) {
      CallByText(s, "install_headers", args);
    }
  }

  lemma LibrarySomehow(s: string, word: char -> bool)
    requires Separates(word)
    ensures MesonInputs.Declares(word)(s) <==> DeclaresLibrary(s, word)
    ensures forall args: string :: LibraryOf(s, word) == Some(args) <==> Declares(s, args, word)
  {
    hide LibraryOf, Declares;
    forall args: string ensures LibraryOf(s, word) == Some(args) <==> Declares(s, args, word) {
      LibraryByText(s, args, word);
    }
  }

  lemma ListsByStatements(ss: seq<string>, word: char -> bool, digit: char -> bool)
    ensures (forall name :: name in SourceNames(ss, word) ==> DefinitionsOk(Definitions(ss, name, word), digit)) <==>
            (forall s, a :: s in ss && AssignmentOf(s, word) == Some(a) && EndsWith(a.name, "sources") ==>
               DefinitionsOk(Definitions(ss, a.name, word), digit))
  {
    hide DefinitionsOk, Definitions, AssignmentOf, EndsWith;
    assert forall i :: 0 <= i < |ss| ==> ss[i] in ss;
    forall s, a | s in ss && AssignmentOf(s, word) == Some(a) && EndsWith(a.name, "sources")
      ensures a.name in SourceNames(ss, word)
    {
      var i :| 0 <= i < |ss| && ss[i] == s;
    }
  }

  lemma CallsByStatements(ss: seq<string>, references: set<string>, word: char -> bool, digit: char -> bool)
    requires Separates(word)
    ensures (forall i :: 0 <= i < |ss| ==> CallsOk(ss[i], references, word, digit)) <==>
            && (forall s, args :: s in ss && IsCallOf(s, "install_headers", args) ==> InstallerOk(args, word))
            && (forall s, args :: s in ss && Declares(s, args, word) ==> LibraryOk(args, references, word, digit))
  {
    forall s: string
      ensures forall args: string :: InstallerOf(s) == Some(args) <==> IsCallOf(s, "install_headers", args)
      ensures forall args: string :: LibraryOf(s, word) == Some(args) <==> Declares(s, args, word)
    {
      InstallationSomehow(s);
      LibrarySomehow(s, word);
    }
    hide InstallerOf, LibraryOf, IsCallOf, Declares, InstallerOk, LibraryOk;
    assert forall i :: 0 <= i < |ss| ==> ss[i] in ss;
    if forall i :: 0 <= i < |ss| ==> CallsOk(ss[i], references, word, digit) {
      forall s | s in ss ensures CallsOk(s, references, word, digit) {
        var i :| 0 <= i < |ss| && ss[i] == s;
      }
    }
  }

  lemma SourcesByStatements(ss: seq<string>, word: char -> bool, digit: char -> bool)
    ensures CSources(ss, word, digit) != {} <==>
            exists name: string :: IsC(name) && MesonInputs.Names(ss, name, word, digit)
  {
    forall name: string
      ensures name in CSources(ss, word, digit) <==> IsC(name) && MesonInputs.Names(ss, name, word, digit)
    {
      SourcesAreNamed(ss, name, word, digit);
    }
    hide CSources, IsC, MesonInputs.Names;
  }

  /** A text is accepted exactly if it splits into statements and is supported in this sense. */
  lemma {:induction false} AcceptedByFields(clean: string, word: char -> bool, digit: char -> bool)
    requires Separates(word)
    ensures Accepted(clean, word, digit) <==>
              Split(clean, '\n').Some? && IsSupported(clean, Split(clean, '\n').value, word, digit)
  {
    if Split(clean, '\n').Some? {
      var ss := Split(clean, '\n').value;
      PlacesAreTallies(ss, word);
      ListsByStatements(ss, word, digit);
      CallsByStatements(ss, References(ss, word), word, digit);
      SourcesByStatements(ss, word, digit);
      hide Split, Tally, Calls, HeadersOf, Definitions, DefinitionsOk, SourceNames, CallsOk, CSources, InstallerOk,
        LibraryOk, IsCallOf, Declares, AssignmentOf, EndsWith, InstallationPlaces, LibraryPlaces, IsC,
        MesonInputs.Names, References;
    }
  }
}
