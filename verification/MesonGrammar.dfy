/** The grammar of source expressions, and how the splitter reads its pieces. */
module MesonGrammar {
  import opened Options
  import opened Lexer
  import opened Text
  import opened Splitter
  import opened SplitterLaws
  import opened CArray
  import opened Meson

  /** The grammar: C files and headers, known names, and lists of expressions that say something. */
  predicate Grammatical(e: Expr, references: set<string>, digit: char -> bool) {
    forall k :: 0 <= k < |e.terms| ==> GrammaticalTerm(e.terms[k], references, digit)
  }

  predicate GrammaticalTerm(t: Term, references: set<string>, digit: char -> bool) {
    match t
    case File(name) =>
      (IsFile(name, ".c") || IsFile(name, ".h")) && forall k :: 0 <= k < |name| ==> !IsQuote(name[k])
    case Named(text) => IsGenerated(text, digit) || text in references
    case List(items) =>
      forall k :: 0 <= k < |items| ==> items[k].terms != [] && Grammatical(items[k], references, digit)
  }

  /** Characters without a meaning of their own in an expression. */
  predicate IsPlain(c: char) {
    !IsSpace(c) && !IsQuote(c) && c != '\\' && !IsOpen(c) && !IsClose(c) && c != ',' && c != '+'
  }

  predicate AllPlain(s: string) { forall k :: 0 <= k < |s| ==> IsPlain(s[k]) }

  /** A text with nothing in it that the splitter sees. */
  predicate IsFlat(s: string, d: char) {
    forall k :: 0 <= k < |s| ==> !IsQuote(s[k]) && !IsOpen(s[k]) && !IsClose(s[k]) && s[k] != d
  }

  predicate NoQuotes(s: string) { forall k :: 0 <= k < |s| ==> !IsQuote(s[k]) }

  /** References are names, and digits are no punctuation. */
  ghost predicate Ordinary(references: set<string>, digit: char -> bool) {
    (forall r :: r in references ==> r != "" && AllPlain(r)) && forall c :: digit(c) ==> IsPlain(c)
  }

  predicate IsDelimiter(d: char) { d == ',' || d == '+' }

  // ---------------------------------------------------------------------------
  // Reading a piece before any other text

  lemma ReadsByRuns(t: string, d: char)
    requires forall x: string :: Runs(t, x, "", d) == Some("")
    ensures ReadsAnywhere(t, d)
  {
    hide Runs, Whole;
    forall x: string ensures Whole(t, x, "", d) {
      assert Runs(t, x, "", d) == Some("");
      RunsIsWhole(t, x, "", d);
    }
  }

  lemma RunsOfReads(t: string, x: string, stack: string, d: char)
    requires ReadsAnywhere(t, d)
    ensures Runs(t, x, stack, d) == Some(stack)
  {
    hide Runs;
    assert Whole(t, x, "", d);
    RunsIsWhole(t, x, "", d);
    RunsAbove(t, x, "", stack, d);
    assert stack + "" == stack;
  }

  ghost predicate Nested(t: string, d: char) { forall x: string :: Runs(t, x, "]", d) == Some("]") }

  lemma NestedAppend(a: string, b: string, d: char)
    requires Nested(a, d) && Nested(b, d)
    ensures Nested(a + b, d)
  {
    hide Runs;
    forall x: string ensures Runs(a + b, x, "]", d) == Some("]") {
      assert Runs(a, b + x, "]", d) == Some("]") && Runs(b, x, "]", d) == Some("]");
      RunsAppend(a, b, x, "]", d);
    }
  }

  lemma NestedReads(t: string, d: char)
    requires ReadsAnywhere(t, d)
    ensures Nested(t, d)
  {
    hide Runs, ReadsAnywhere;
    forall x: string ensures Runs(t, x, "]", d) == Some("]") {
      RunsOfReads(t, x, "]", d);
    }
  }

  lemma NestedDelimiter(c: char, d: char)
    requires IsDelimiter(c)
    ensures Nested([c], d)
  {
    forall x: string ensures Runs([c], x, "]", d) == Some("]") {
      RunsChar(c, x, "]", d);
    }
  }

  /** Inside brackets the delimiters between texts are kept. */
  lemma {:induction false} NestedJoin(ts: seq<string>, c: char, d: char)
    requires IsDelimiter(c) && forall k :: 0 <= k < |ts| ==> Nested(ts[k], d)
    ensures Nested(Join(ts, c), d)
  {
    hide Nested;
    if ts == [] {
      NothingNested(d);
    } else if |ts| > 1 {
      NestedJoin(ts[1..], c, d);
      NestedDelimiter(c, d);
      NestedAppend(ts[0], [c], d);
      NestedAppend(ts[0] + [c], Join(ts[1..], c), d);
    }
  }

  lemma NothingNested(d: char)
    ensures Nested("", d)
  {
  }

  lemma BracketsRead(inner: string, d: char)
    requires Nested(inner, d) && IsDelimiter(d)
    ensures ReadsAnywhere("[" + inner + "]", d)
  {
    var t := "[" + inner + "]";
    assert t == "[" + (inner + "]");
    forall x: string ensures Runs(t, x, "", d) == Some("") {
      assert "" + [']'] == "]" && "]"[..0] == "";
      RunsChar('[', (inner + "]") + x, "", d);
      RunsChar(']', x, "]", d);
      hide Step, TokenLength;
      assert Runs(inner, "]" + x, "]", d) == Some("]");
      RunsAppend(inner, "]", x, "]", d);
      RunsAppend("[", inner + "]", x, "", d);
    }
    ReadsByRuns(t, d);
  }

  lemma AppendReads(a: string, b: string, d: char)
    requires ReadsAnywhere(a, d) && ReadsAnywhere(b, d)
    ensures ReadsAnywhere(a + b, d)
  {
    hide Runs, ReadsAnywhere;
    forall x: string ensures Runs(a + b, x, "", d) == Some("") {
      RunsOfReads(a, b + x, "", d);
      RunsOfReads(b, x, "", d);
      RunsAppend(a, b, x, "", d);
    }
    ReadsByRuns(a + b, d);
  }

  lemma PlusReads()
    ensures ReadsAnywhere("+", ',')
  {
    forall x: string ensures Runs("+", x, "", ',') == Some("") {
      RunsChar('+', x, "", ',');
    }
    ReadsByRuns("+", ',');
  }

  /** Outside brackets a sum is no list: the plus signs between its terms are kept. */
  lemma {:induction false} SumReads(ts: seq<string>)
    requires forall k :: 0 <= k < |ts| ==> ReadsAnywhere(ts[k], ',')
    ensures ReadsAnywhere(Join(ts, '+'), ',')
  {
    hide ReadsAnywhere;
    if ts == [] {
      FlatReads("", ',');
    } else if |ts| > 1 {
      SumReads(ts[1..]);
      PlusReads();
      AppendReads(ts[0], "+", ',');
      AppendReads(ts[0] + "+", Join(ts[1..], '+'), ',');
    }
  }

  lemma FlatReads(t: string, d: char)
    requires IsFlat(t, d)
    ensures ReadsAnywhere(t, d)
  {
    forall x: string ensures Whole(t, x, "", d) {
      FlatIsWhole(t, x, d);
    }
  }

  lemma PlainReads(t: string, d: char)
    requires AllPlain(t) && IsDelimiter(d)
    ensures ReadsAnywhere(t, d) && NoQuotes(t)
  {
    hide ReadsAnywhere, IsSpace;
    FlatReads(t, d);
  }

  lemma {:induction false} FlatIsWhole(t: string, x: string, d: char)
    requires IsFlat(t, d)
    ensures Whole(t, x, "", d)
  {
    if t != "" {
      assert (t + x)[0] == t[0] && TokenLength(t + x) == 1 && t[..1] == [t[0]];
      FlatIsWhole(t[1..], x, d);
    }
  }

  lemma {:induction false} NoQuoteOpen(name: string, q: char, skip: bool)
    requires forall k :: 0 <= k < |name| ==> name[k] != q
    ensures CloseQuote(name, q, skip).None?
    ensures name != "" && name[|name| - 1] != '\\' ==> !SkipAfter(name, skip)
  {
    if name != "" {
      NoQuoteOpen(name[1..], q, !skip && name[0] == '\\');
    }
  }

  lemma QuotedReads(mark: char, name: string, d: char)
    requires IsQuote(mark) && name != "" && name[|name| - 1] != '\\'
    requires forall k :: 0 <= k < |name| ==> !IsQuote(name[k])
    ensures ReadsAnywhere([mark] + name + [mark], d)
  {
    var t := [mark] + name + [mark];
    forall x: string ensures Whole(t, x, "", d) {
      QuotedIsLiteral(mark, name, x);
      assert t[..|t|] == t && t[|t|..] == "";
    }
  }

  lemma QuotedIsLiteral(mark: char, name: string, x: string)
    requires IsQuote(mark) && name != "" && name[|name| - 1] != '\\'
    requires forall k :: 0 <= k < |name| ==> !IsQuote(name[k])
    ensures LiteralLength([mark] + name + [mark] + x) == Some(|name| + 2)
  {
    NoQuoteOpen(name, mark, false);
    CloseQuoteAppend(name, [mark] + x, mark, false);
    assert ([mark] + name + [mark] + x)[1..] == name + ([mark] + x);
  }

  // ---------------------------------------------------------------------------
  // Printed terms

  predicate IsLower(c: char) { 'a' <= c <= 'z' || c == '_' }

  lemma GeneratedArePlain()
    ensures forall g :: g in GENERATED ==> g != "" && forall k :: 0 <= k < |g| ==> IsLower(g[k])
  {
  }

  /** A known name is trimmed, is neither quoted nor a list, and is read as one piece. */
  lemma {:induction false} NameIsField(text: string, references: set<string>, digit: char -> bool, d: char)
    requires Ordinary(references, digit) && (IsGenerated(text, digit) || text in references) && IsDelimiter(d)
    ensures IsField(text, d) && IsPlain(text[0]) && NoQuotes(text)
  {
    hide IsField, IsPlain, IsOutput, GENERATED, NoQuotes;
    if text in references || text in GENERATED {
      KnownNameIsPlain(text, references, digit);
      PlainNameIsField(text, d);
    } else {
      var g :| g in GENERATED && IsOutput(text, g, digit);
      KnownNameIsPlain(g, references, digit);
      OutputIsField(text, g, references, digit, d);
    }
  }

  lemma {:induction false} KnownNameIsPlain(name: string, references: set<string>, digit: char -> bool)
    requires Ordinary(references, digit) && (name in references || name in GENERATED)
    ensures name != "" && AllPlain(name)
  {
    hide GENERATED, IsLower, IsPlain;
    if name in GENERATED {
      GeneratedArePlain();
      forall k | 0 <= k < |name| ensures IsPlain(name[k]) {
        LowerIsPlain(name[k]);
      }
    }
  }

  lemma LowerIsPlain(c: char)
    requires IsLower(c)
    ensures IsPlain(c)
  {
  }

  lemma PlainNameIsField(text: string, d: char)
    requires text != "" && AllPlain(text) && IsDelimiter(d)
    ensures IsField(text, d) && IsPlain(text[0]) && NoQuotes(text)
  {
    hide ReadsAnywhere;
    PlainReads(text, d);
    assert IsPlain(text[0]) && IsPlain(text[|text| - 1]);
  }

  lemma OutputIsField(text: string, g: string, references: set<string>, digit: char -> bool, d: char)
    requires Ordinary(references, digit) && IsDelimiter(d) && g != "" && AllPlain(g) && IsOutput(text, g, digit)
    ensures IsField(text, d) && IsPlain(text[0]) && NoQuotes(text)
  {
    hide ReadsAnywhere, IsPlain, IsSpace;
    var number := text[|g| + 1..|text| - 1];
    assert text == g + ("[" + number + "]");
    assert AllPlain(number);
    PlainReads(g, d);
    PlainReads(number, d);
    hide Ordinary, IsOutput;
    NestedReads(number, d);
    BracketsRead(number, d);
    AppendReads(g, "[" + number + "]", d);
    assert text[0] == g[0];
    EndsInBracket(text);
  }

  lemma EndsInBracket(text: string)
    requires |text| >= 3 && IsPlain(text[0]) && text[|text| - 1] == ']'
    ensures Trimmed(text)
  {
  }

  lemma FileIsField(mark: char, name: string, d: char)
    requires IsQuote(mark) && GrammaticalTerm(File(name), {}, (c: char) => false)
    ensures IsField([mark] + name + [mark], d) && FileLiteral([mark] + name + [mark]) == Some(name)
  {
    QuotedReads(mark, name, d);
    var part := [mark] + name + [mark];
    assert part[1..|part| - 1] == name;
    forall k | 1 <= k < |part| - 1 ensures !IsQuote(part[k]) {
      assert part[k] == name[k - 1];
    }
  }

  // ---------------------------------------------------------------------------
  // Soundness

  /** Whatever text is accepted, what is read from it belongs to the grammar. */
  lemma {:induction false} ReadExpressionIsGrammatical(text: string, references: set<string>, digit: char -> bool)
    requires Parse(text, references, digit).Some?
    ensures Grammatical(Parse(text, references, digit).value, references, digit)
    decreases |text|, 3, 0
  {
    hide Split, ParseTerms, GrammaticalTerm;
    PartsAreNotLonger(text, '+');
    ReadTermsAreGrammatical(Split(text, '+').value, |text|, references, digit);
  }

  lemma {:induction false} ReadTermsAreGrammatical(parts: seq<string>, n: nat, references: set<string>,
                                                   digit: char -> bool)
    requires AtMost(parts, n) && ParseTerms(parts, n, references, digit).Some?
    ensures forall k :: 0 <= k < |ParseTerms(parts, n, references, digit).value| ==>
              GrammaticalTerm(ParseTerms(parts, n, references, digit).value[k], references, digit)
    decreases n, 2, |parts|
  {
    hide ParseTerm, GrammaticalTerm;
    if parts != [] {
      ReadTermsAreGrammatical(parts[..|parts| - 1], n, references, digit);
      ReadTermIsGrammatical(parts[|parts| - 1], references, digit);
    }
  }

  lemma {:induction false} ReadTermIsGrammatical(part: string, references: set<string>, digit: char -> bool)
    requires ParseTerm(part, references, digit).Some?
    ensures GrammaticalTerm(ParseTerm(part, references, digit).value, references, digit)
    decreases |part|, 1, 0
  {
    hide Split, ParseItems, IsGenerated;
    if FileLiteral(part).None? && IsList(part) {
      var inner := part[1..|part| - 1];
      PartsAreNotLonger(inner, ',');
      ReadItemsAreGrammatical(Split(inner, ',').value, |inner|, references, digit);
    }
  }

  lemma {:induction false} ReadItemsAreGrammatical(members: seq<string>, n: nat, references: set<string>,
                                                   digit: char -> bool)
    requires AtMost(members, n) && ParseItems(members, n, references, digit).Some?
    ensures forall k :: 0 <= k < |ParseItems(members, n, references, digit).value| ==>
              var e := ParseItems(members, n, references, digit).value[k];
              e.terms != [] && Grammatical(e, references, digit)
    decreases n, 4, |members|
  {
    hide Parse, Grammatical;
    if members != [] {
      ReadItemsAreGrammatical(members[..|members| - 1], n, references, digit);
      ReadExpressionIsGrammatical(members[|members| - 1], references, digit);
    }
  }
}
