/** The terms of an option definition in a manual, and the spellings read from them. */
module OptionTerms {
  import opened Options
  import opened Text
  import opened Surfaces

  /** A term: its text, and the texts of the elements in it that are marked up as options. */
  datatype Term = Term(text: string, options: seq<string>)

  /** One definition of a manual, with the document it is written in. */
  datatype Listing = Listing(origin: string, terms: seq<Term>)

  predicate IsAlphanumeric(c: char) { 'a' <= c <= 'z' || 'A' <= c <= 'Z' || '0' <= c <= '9' }

  predicate IsTail(c: char) { IsAlphanumeric(c) || c == '-' }

  function TailLength(s: string): (n: nat)
    ensures n <= |s| && (n < |s| ==> !IsTail(s[n])) && forall k :: 0 <= k < n ==> IsTail(s[k])
  {
    if s == "" || !IsTail(s[0]) then 0 else 1 + TailLength(s[1..])
  }

  /** What may follow a spelling: nothing, a value or a bracket. */
  predicate Ends(rest: string) { rest != "" ==> rest[0] == '=' || rest[0] == '[' || IsSpace(rest[0]) }

  /** The spelling that a text begins with. */
  function SpellingOf(value: string): Option<string> {
    var k := if StartsWith(value, "--") then 2 else 1;
    if StartsWith(value, "-") && k < |value| && (IsAlphanumeric(value[k]) || value[k] == '?') then
      var n := k + 1 + TailLength(value[k + 1..]);
      if Ends(value[n..]) then Some(value[..n]) else None
    else None
  }

  /** One or two dashes, a letter, a digit or a question mark, and more letters, digits and dashes. */
  predicate IsSpelling(name: string) {
    var k := if StartsWith(name, "--") then 2 else 1;
    && StartsWith(name, "-") && k < |name| && (IsCode(name[k] as int) || name[k] == '?')
    && forall i :: k < i < |name| ==> IsCode(name[i] as int) || name[i] == '-'
  }

  /** The code points of digits and letters. */
  predicate IsCode(n: int) { 48 <= n <= 57 || 65 <= n <= 90 || 97 <= n <= 122 }

  /** The spellings of a term's options; nothing if one begins with a dash and is no spelling. */
  function OptionMatches(options: seq<string>): Option<seq<string>> {
    if options == [] then Some([])
    else
      var value := Strip(options[|options| - 1]);
      match OptionMatches(options[..|options| - 1])
      case None => None
      case Some(names) =>
        match SpellingOf(value)
        case Some(name) => Some(names + [name])
        case None => if StartsWith(value, "-") then None else Some(names)
  }

  /** A term with a dash must mark its options up. */
  function TermMatches(t: Term): Option<seq<string>> {
    if t.options == [] && StartsWith(Strip(t.text), "-") then None else OptionMatches(t.options)
  }

  function Spellings(terms: seq<Term>): Option<seq<string>> {
    if terms == [] then Some([])
    else
      match Spellings(terms[..|terms| - 1])
      case None => None
      case Some(names) =>
        match TermMatches(terms[|terms| - 1]) case None => None case Some(more) => Some(names + more)
  }

  function EntryOf(l: Listing): Option<Entry> {
    match Spellings(l.terms) case None => None case Some(names) => Some(Entry(l.origin, names))
  }

  /** The entries before the first definition that cannot be read. */
  function EntriesOf(ls: seq<Listing>): (r: seq<Entry>)
    ensures |r| <= |ls|
  {
    if ls == [] then []
    else
      var front := EntriesOf(ls[..|ls| - 1]);
      match EntryOf(ls[|ls| - 1])
      case None => front
      case Some(e) => if |front| == |ls| - 1 then front + [e] else front
  }

  lemma {:induction false} EntriesStop(ls: seq<Listing>, k: nat)
    requires k < |ls| && EntryOf(ls[k]).None?
    ensures EntriesOf(ls) == EntriesOf(ls[..k])
    decreases |ls|
  {
    hide EntryOf;
    var n := |ls| - 1;
    if k < n {
      EntriesStop(ls[..n], k);
      assert ls[..n][..k] == ls[..k];
    }
  }

  lemma {:induction false} OptionsFail(options: seq<string>, k: nat)
    requires k <= |options| && OptionMatches(options[..k]).None?
    ensures OptionMatches(options).None?
    decreases |options|
  {
    hide Strip, SpellingOf;
    if k == |options| {
      assert options[..k] == options;
    } else {
      assert options[..|options| - 1][..k] == options[..k];
      OptionsFail(options[..|options| - 1], k);
    }
  }

  lemma {:induction false} SpellingsStop(terms: seq<Term>, k: nat)
    requires k < |terms| && TermMatches(terms[k]).None?
    ensures Spellings(terms).None?
    decreases |terms|
  {
    hide TermMatches;
    if k < |terms| - 1 {
      SpellingsStop(terms[..|terms| - 1], k);
    }
  }

  // ---------------------------------------------------------------------------
  // What is read

  lemma {:induction false} TailStops(a: string, rest: string)
    requires (forall k :: 0 <= k < |a| ==> IsTail(a[k])) && (rest != "" ==> !IsTail(rest[0]))
    ensures TailLength(a + rest) == |a|
  {
    if a == "" {
      assert a + rest == rest;
    } else {
      assert (a + rest)[1..] == a[1..] + rest;
      TailStops(a[1..], rest);
    }
  }

  lemma EndsStop(rest: string)
    requires Ends(rest)
    ensures rest != "" ==> !IsTail(rest[0]) && rest[0] != '-'
  {
  }

  lemma SameDashes(name: string, rest: string)
    requires IsSpelling(name) && Ends(rest)
    ensures StartsWith(name + rest, "-") && (StartsWith(name + rest, "--") <==> StartsWith(name, "--"))
  {
    var value := name + rest;
    hide Ends;
    assert value[0] == name[0] == '-' && |name| >= 2 && value[1] == name[1];
  }

  lemma WrittenSpellingIsRead(name: string, rest: string)
    requires IsSpelling(name) && Ends(rest)
    ensures SpellingOf(name + rest) == Some(name)
  {
    var value := name + rest;
    var k := if StartsWith(name, "--") then 2 else 1;
    SameDashes(name, rest);
    EndsStop(rest);
    hide Ends, IsAlphanumeric, StartsWith;
    assert value[k] == name[k] && value[k + 1..] == name[k + 1..] + rest;
    TailStops(name[k + 1..], rest);
    assert value[..|name|] == name && value[|name|..] == rest;
  }

  lemma ReadSpellingIsWritten(value: string, name: string)
    requires SpellingOf(value) == Some(name)
    ensures IsSpelling(name) && StartsWith(value, name) && Ends(value[|name|..])
  {
    var k := if StartsWith(value, "--") then 2 else 1;
    assert forall i :: k < i < |name| ==> name[i] == value[k + 1..][i - k - 1];
  }

  /** A spelling is read exactly from what begins with it and goes on as a definition may. */
  lemma {:induction false} SpellingIsRead(value: string, name: string)
    ensures SpellingOf(value) == Some(name) <==>
              IsSpelling(name) && StartsWith(value, name) && Ends(value[|name|..])
  {
    hide SpellingOf, IsSpelling, Ends;
    if IsSpelling(name) && StartsWith(value, name) && Ends(value[|name|..]) {
      assert value == name + value[|name|..];
      WrittenSpellingIsRead(name, value[|name|..]);
    }
    if SpellingOf(value) == Some(name) {
      ReadSpellingIsWritten(value, name);
    }
  }

  /** The option is written so that its spelling can be read. */
  predicate Spells(option: string, name: string) {
    IsSpelling(name) && StartsWith(Strip(option), name) && Ends(Strip(option)[|name|..])
  }

  /** Options that spell names, among texts without a dash, are read as these names, in order. */
  ghost predicate Spelled(options: seq<string>, names: seq<string>)
    decreases |options|
  {
    if options == [] then names == []
    else
      var front, last := options[..|options| - 1], options[|options| - 1];
      || (names != [] && Spells(last, names[|names| - 1]) && Spelled(front, names[..|names| - 1]))
      || (!StartsWith(Strip(last), "-") && Spelled(front, names))
  }

  lemma SpellsWithDash(option: string, name: string)
    ensures Spells(option, name) <==> SpellingOf(Strip(option)) == Some(name)
    ensures Spells(option, name) ==> StartsWith(Strip(option), "-")
  {
    hide Strip, IsSpelling, SpellingOf;
    SpellingIsRead(Strip(option), name);
    SpellingHasDash(Strip(option));
  }

  lemma SpellingHasDash(value: string)
    ensures SpellingOf(value).Some? ==> StartsWith(value, "-")
  {
  }

  /** The options of a term are accepted exactly if each spells a name or begins without a dash, and
      then give the names. */
  lemma {:induction false} OptionsAreRead(options: seq<string>, names: seq<string>)
    ensures OptionMatches(options) == Some(names) <==> Spelled(options, names)
    decreases |options|
  {
    hide Strip, SpellingOf, Spells, StartsWith;
    if options != [] {
      var n, m := |options| - 1, |names| - 1;
      var front, last := options[..n], options[n];
      OptionsAreRead(front, names);
      if names != [] {
        OptionsAreRead(front, names[..m]);
        SpellsWithDash(last, names[m]);
        assert names == names[..m] + [names[m]];
      }
      if OptionMatches(options) == Some(names) && SpellingOf(Strip(last)).Some? {
        var before, name := OptionMatches(front).value, SpellingOf(Strip(last)).value;
        SpellsWithDash(last, name);
        assert names == before + [name];
        assert names[..m] == before && names[m] == name;
      }
      if Spelled(options, names) && !StartsWith(Strip(last), "-") {
        NoDashNoSpelling(last);
      }
    }
  }

  lemma NoDashNoSpelling(option: string)
    requires !StartsWith(Strip(option), "-")
    ensures SpellingOf(Strip(option)).None?
  {
    SpellingHasDash(Strip(option));
  }

  /** Trimming keeps what begins with a trimmed text. */
  lemma StripKeepsFront(left: string, name: string, tail: string) returns (m: nat)
    requires AllSpace(left) && name != "" && Trimmed(name)
    ensures m <= |tail| && Strip(left + name + tail) == name + tail[..m]
  {
    var s := left + name + tail;
    var n := |left| + |name|;
    assert s[|left|] == name[0] && s[n - 1] == name[|name| - 1];
    var end := DropSpace(s, |left|, |s|);
    assert SkipSpace(s, 0) == |left| && end >= n;
    m := end - n;
    assert s == left + (name + tail) && s[|left|..end] == (name + tail)[..|name| + m];
  }

  /** A written option, with whitespace around it and a value after it, spells its name. */
  lemma {:induction false} WrittenOptionSpells(left: string, name: string, rest: string, right: string)
    requires AllSpace(left) && AllSpace(right) && IsSpelling(name) && Ends(rest)
    ensures Spells(left + name + rest + right, name)
  {
    var tail := rest + right;
    assert left + name + rest + right == left + name + tail;
    assert Ends(tail) by {
      if rest == "" {
        assert tail == right;
      }
    }
    SpellingIsTrimmed(name);
    hide IsSpelling, Strip, AllSpace;
    var m := StripKeepsFront(left, name, tail);
    var value := name + tail[..m];
    assert value[..|name|] == name && value[|name|..] == tail[..m];
  }

  lemma SpellingIsTrimmed(name: string)
    requires IsSpelling(name)
    ensures name != "" && Trimmed(name)
  {
  }

  // ---------------------------------------------------------------------------
  // What raises

  /** Past its whitespace the text begins with a dash. */
  ghost predicate BeginsWithDash(text: string) {
    exists k :: 0 <= k < |text| && text[k] == '-' && forall i :: 0 <= i < k ==> IsSpace(text[i])
  }

  lemma DashByText(text: string)
    ensures StartsWith(Strip(text), "-") <==> BeginsWithDash(text)
  {
    var k := SkipSpace(text, 0);
    DashIsNoSpace();
    if StartsWith(Strip(text), "-") {
      assert text[k] == Strip(text)[0] == Strip(text)[..1][0] == '-';
    }
    if j :| 0 <= j < |text| && text[j] == '-' && forall i :: 0 <= i < j ==> IsSpace(text[i]) {
      assert k == j && DropSpace(text, k, |text|) > k;
      assert Strip(text)[..1] == [text[k]];
    }
  }

  lemma DashIsNoSpace()
    ensures !IsSpace('-')
  {
  }

  /** A term raises exactly if it begins with a dash and marks no option up, or if a marked option begins
      with a dash and spells no name; otherwise its names are those its options spell. */
  lemma {:induction false} TermByText(t: Term, names: seq<string>)
    ensures TermMatches(t).None? <==>
              || (|t.options| == 0 && BeginsWithDash(t.text))
              || exists i :: 0 <= i < |t.options| && BeginsWithDash(t.options[i])
                             && forall name :: !Spells(t.options[i], name)
    ensures TermMatches(t) == Some(names) <==>
              !(|t.options| == 0 && BeginsWithDash(t.text)) && Spelled(t.options, names)
  {
    DashByText(t.text);
    OptionsAreRead(t.options, names);
    OptionsRaise(t.options);
    hide Strip, BeginsWithDash, Spells, Spelled, OptionMatches;
  }

  lemma {:induction false} OptionsRaise(options: seq<string>)
    ensures OptionMatches(options).None? <==>
              exists i :: 0 <= i < |options| && BeginsWithDash(options[i]) && forall name :: !Spells(options[i], name)
  {
    hide Strip, SpellingOf, Spells, StartsWith, BeginsWithDash;
    if options != [] {
      var n := |options| - 1;
      OptionsRaise(options[..n]);
      DashByText(options[n]);
      forall name ensures Spells(options[n], name) <==> SpellingOf(Strip(options[n])) == Some(name) {
        SpellsWithDash(options[n], name);
      }
      assert forall i :: 0 <= i < n ==> options[..n][i] == options[i];
    }
  }

  /** The spellings of a definition are those of its terms, one after another. */
  lemma {:induction false} TermsInOrder(a: seq<Term>, b: seq<Term>)
    ensures var x, y := Spellings(a), Spellings(b);
            Spellings(a + b) == if x.None? || y.None? then None else Some(x.value + y.value)
    decreases |b|
  {
    hide TermMatches;
    var x := Spellings(a);
    if b == [] {
      assert a + b == a;
      if x.Some? {
        assert x.value + [] == x.value;
      }
    } else {
      var n := |b| - 1;
      TermsInOrder(a, b[..n]);
      assert (a + b)[..|a + b| - 1] == a + b[..n] && (a + b)[|a + b| - 1] == b[n];
      if x.Some? && Spellings(b[..n]).Some? && TermMatches(b[n]).Some? {
        assert (x.value + Spellings(b[..n]).value) + TermMatches(b[n]).value ==
               x.value + (Spellings(b[..n]).value + TermMatches(b[n]).value);
      }
    }
  }

  lemma OneTerm(t: Term)
    ensures Spellings([t]) == TermMatches(t)
  {
    hide TermMatches;
    assert [t][..0] == [];
    if TermMatches(t).Some? {
      assert [] + TermMatches(t).value == TermMatches(t).value;
    }
  }

  /** The definitions are read in their order up to the first that raises. */
  lemma {:induction false} EntriesInOrder(ls: seq<Listing>)
    ensures var r := EntriesOf(ls);
            && (forall i :: 0 <= i < |r| ==>
                  Spellings(ls[i].terms) == Some(r[i].matches) && r[i].origin == ls[i].origin)
            && (|r| < |ls| ==> Spellings(ls[|r|].terms).None?)
  {
    hide Spellings;
    if ls != [] {
      var n := |ls| - 1;
      EntriesInOrder(ls[..n]);
      var front := EntriesOf(ls[..n]);
      assert forall i :: 0 <= i < n ==> ls[..n][i] == ls[i];
    }
  }

  // ---------------------------------------------------------------------------
  // Names

  /** A long spelling is two dashes and anything. */
  lemma LongByText(name: string, rest: string)
    ensures IsLong("--" + rest)
    ensures IsLong(name) <==> |name| >= 2 && name == "--" + name[2..]
  {
    assert ("--" + rest)[..2] == "--" && ("--" + rest)[2..] == rest;
    if |name| >= 2 {
      assert name == name[..2] + name[2..];
    }
  }

  /** A registered name is read from its literal: letters, digits, underscores and dashes between
      quotation marks. */
  lemma LiteralByText(value: string, name: string)
    ensures StringLiteral(value) == Some(name) <==>
              && value == "\"" + name + "\"" && name != ""
              && forall k :: 0 <= k < |name| ==> IsCode(name[k] as int) || name[k] in {'_', '-'}
  {
    var written := "\"" + name + "\"";
    assert |written| == |name| + 2 && written[0] == '"' && written[|written| - 1] == '"';
    assert written[1..|written| - 1] == name;
    forall k | 0 <= k < |name| ensures IsNameChar(name[k]) <==> IsCode(name[k] as int) || name[k] in {'_', '-'} {
    }
    if StringLiteral(value) == Some(name) {
      assert value == [value[0]] + value[1..|value| - 1] + [value[|value| - 1]];
    }
  }
}
