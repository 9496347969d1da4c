/** Source expressions as they are written: whitespace, either quotation mark and empty places.
    The texts that are read as an expression and close their quotes are exactly those written
    for it. */
module MesonLayout {
  import opened Options
  import opened Lexer
  import opened Text
  import opened Splitter
  import opened SplitterLaws
  import opened SplitStability
  import opened CArray
  import opened Meson
  import opened MesonGrammar

  /** A place between plus signs: blank, or a term with whitespace around it. */
  datatype Place = Blank(space: string) | Filled(left: string, form: Form, right: string)

  datatype Layout = Layout(places: seq<Place>)

  /** How a term is written; a member of a list is written like an expression. */
  datatype Form = Marked(mark: char, name: string) | Bare(text: string) | Brackets(members: seq<Layout>)

  function Write(l: Layout): string { Join(PlaceTexts(l.places), '+') }

  function PlaceTexts(ps: seq<Place>): (r: seq<string>)
    ensures |r| == |ps| && forall k :: 0 <= k < |ps| ==> r[k] == PlaceText(ps[k])
  {
    if ps == [] then [] else PlaceTexts(ps[..|ps| - 1]) + [PlaceText(ps[|ps| - 1])]
  }

  function PlaceText(p: Place): string {
    match p
    case Blank(space) => space
    case Filled(left, form, right) => left + FormText(form) + right
  }

  function FormText(f: Form): string {
    match f
    case Marked(mark, name) => [mark] + name + [mark]
    case Bare(text) => text
    case Brackets(members) => "[" + Join(MemberTexts(members), ',') + "]"
  }

  function MemberTexts(ms: seq<Layout>): (r: seq<string>)
    ensures |r| == |ms| && forall k :: 0 <= k < |ms| ==> r[k] == Write(ms[k])
  {
    if ms == [] then [] else MemberTexts(ms[..|ms| - 1]) + [Write(ms[|ms| - 1])]
  }

  /** What is written. */
  function Written(l: Layout): Expr { Expr(TermsOf(l.places)) }

  function TermsOf(ps: seq<Place>): seq<Term> {
    if ps == [] then []
    else
      TermsOf(ps[..|ps| - 1])
      + match ps[|ps| - 1] case Blank(_) => [] case Filled(_, form, _) => [TermOf(form)]
  }

  function TermOf(f: Form): Term {
    match f
    case Marked(_, name) => File(name)
    case Bare(text) => Named(text)
    case Brackets(members) => List(ItemsOf(members))
  }

  function ItemsOf(ms: seq<Layout>): seq<Expr> {
    if ms == [] then []
    else ItemsOf(ms[..|ms| - 1]) + (if Written(ms[|ms| - 1]).terms == [] then [] else [Written(ms[|ms| - 1])])
  }

  predicate IsLayout(l: Layout, references: set<string>, digit: char -> bool) {
    l.places != [] && forall k :: 0 <= k < |l.places| ==> IsPlace(l.places[k], references, digit)
  }

  predicate IsPlace(p: Place, references: set<string>, digit: char -> bool) {
    match p
    case Blank(space) => AllSpace(space)
    case Filled(left, form, right) => AllSpace(left) && AllSpace(right) && IsForm(form, references, digit)
  }

  predicate IsForm(f: Form, references: set<string>, digit: char -> bool) {
    match f
    case Marked(mark, name) => IsQuote(mark) && GrammaticalTerm(File(name), references, digit)
    case Bare(text) => GrammaticalTerm(Named(text), references, digit)
    case Brackets(members) =>
      members != [] && forall k :: 0 <= k < |members| ==> IsLayout(members[k], references, digit)
  }

  // ---------------------------------------------------------------------------
  // Whitespace at the ends of a text

  lemma StripBetween(left: string, x: string, right: string)
    requires AllSpace(left) && AllSpace(right) && Trimmed(x)
    ensures Strip(left + x + right) == x
  {
    var s := left + x + right;
    var i := SkipSpace(s, 0);
    if x == "" {
      assert i == |s|;
    } else {
      assert s[|left|] == x[0] && s[|left| + |x| - 1] == x[|x| - 1];
      assert i == |left| && DropSpace(s, i, |s|) == |left| + |x|;
    }
  }

  lemma StripSpaces(left: string, x: string, right: string)
    requires AllSpace(left) && AllSpace(right)
    ensures Strip(left + x + right) == Strip(x)
  {
    var l, r := StripSplits(x);
    StripIsTrimmed(x);
    hide Strip;
    assert left + x + right == (left + l) + Strip(x) + (r + right);
    StripBetween(left + l, Strip(x), r + right);
  }

  /** The slices with `w` put after the last one. */
  function Extend(r: Option<seq<string>>, w: string): Option<seq<string>>
    requires r.Some? ==> r.value != []
  {
    match r case None => None case Some(xs) => Some(xs[..|xs| - 1] + [xs[|xs| - 1] + w])
  }

  lemma SpaceHead(c: char, s: string, stack: string, d: char)
    requires IsSpace(c) && IsDelimiter(d)
    ensures Slices([c] + s, stack, d) == Prepend([c], Slices(s, stack, d))
  {
    var t := [c] + s;
    assert t[0] == c && t[1..] == s && t[..1] == [c];
    assert TokenLength(t) == 1 && Step([c], stack, d) == Keep(stack);
  }

  lemma PrependTwice(a: string, b: string, r: Option<seq<string>>)
    requires r.Some? ==> r.value != []
    ensures Prepend(a, Prepend(b, r)) == Prepend(a + b, r)
  {
    if r.Some? {
      assert a + (b + r.value[0]) == (a + b) + r.value[0];
      assert ([b + r.value[0]] + r.value[1..])[1..] == r.value[1..];
    }
  }

  lemma PrependNothing(r: Option<seq<string>>)
    requires r.Some? ==> r.value != []
    ensures Prepend("", r) == r
  {
    if r.Some? {
      assert "" + r.value[0] == r.value[0];
      assert [r.value[0]] + r.value[1..] == r.value;
    }
  }

  lemma {:induction false} SpaceBefore(w: string, s: string, stack: string, d: char)
    requires AllSpace(w) && IsDelimiter(d)
    ensures Slices(w + s, stack, d) == Prepend(w, Slices(s, stack, d))
  {
    hide Slices;
    if w == "" {
      PrependNothing(Slices(s, stack, d));
      assert w + s == s;
    } else {
      SpaceBefore(w[1..], s, stack, d);
      SpaceHead(w[0], w[1..] + s, stack, d);
      PrependTwice([w[0]], w[1..], Slices(s, stack, d));
      assert [w[0]] + w[1..] == w && w + s == [w[0]] + (w[1..] + s);
    }
  }

  lemma SameTokenBeforeSpace(s: string, w: string)
    requires s != "" && AllSpace(w)
    ensures TokenLength(s + w) == TokenLength(s)
  {
    assert (s + w)[0] == s[0] && (s + w)[1..] == s[1..] + w;
    if IsQuote(s[0]) {
      CloseQuoteAppend(s[1..], w, s[0], false);
      SpaceIsTransparent(w, s[0], SkipAfter(s[1..], false));
    }
  }

  lemma {:induction false} SpaceAfter(s: string, w: string, stack: string, d: char)
    requires AllSpace(w) && IsDelimiter(d)
    ensures Slices(s + w, stack, d) == Extend(Slices(s, stack, d), w)
    decreases |s|
  {
    if s == "" {
      SpaceBefore(w, "", stack, d);
      assert s + w == w && w + "" == w;
      if stack == "" {
        assert [w + ""] + [""][1..] == [""][..0] + ["" + w];
      }
    } else {
      SameTokenBeforeSpace(s, w);
      hide TokenLength;
      var n := TokenLength(s);
      assert (s + w)[..n] == s[..n] && (s + w)[n..] == s[n..] + w;
      match Step(s[..n], stack, d) {
        case Fail =>
        case Cut =>
          SpaceAfter(s[n..], w, "", d);
          ExtendPushed(Slices(s[n..], "", d), w);
        case Keep(stack') =>
          SpaceAfter(s[n..], w, stack', d);
          ExtendPrepended(s[..n], Slices(s[n..], stack', d), w);
      }
    }
  }

  lemma ExtendPushed(r: Option<seq<string>>, w: string)
    requires r.Some? ==> r.value != []
    ensures Push("", Extend(r, w)) == Extend(Push("", r), w)
  {
    if r.Some? {
      var xs := [""] + r.value;
      var last := |r.value| - 1;
      assert xs[..|xs| - 1] == [""] + r.value[..last] && xs[|xs| - 1] == r.value[last];
      assert [""] + (r.value[..last] + [r.value[last] + w]) == xs[..|xs| - 1] + [xs[|xs| - 1] + w];
    }
  }

  lemma ExtendPrepended(token: string, r: Option<seq<string>>, w: string)
    requires r.Some? ==> r.value != []
    ensures Prepend(token, Extend(r, w)) == Extend(Prepend(token, r), w)
  {
    if r.Some? {
      var xs := r.value;
      if |xs| == 1 {
        assert token + (xs[0] + w) == (token + xs[0]) + w;
      }
      assert Prepend(token, Extend(r, w)).value == Extend(Prepend(token, r), w).value;
    }
  }

  /** Splitting does not see whitespace at the ends of the text. */
  lemma SplitOfStripped(s: string, d: char)
    requires IsDelimiter(d)
    ensures Split(Strip(s), d) == Split(s, d)
  {
    var left, right := StripSplits(s);
    var t := Strip(s);
    hide Strip, Slices, Fields;
    SpaceBefore(left, t, "", d);
    SpaceAfter(left + t, right, "", d);
    if Slices(t, "", d).Some? {
      var xs := Slices(t, "", d).value;
      var ys := [left + xs[0]] + xs[1..];
      var zs := ys[..|ys| - 1] + [ys[|ys| - 1] + right];
      forall k | 0 <= k < |xs| ensures Strip(zs[k]) == Strip(xs[k]) {
        var l, r := if k == 0 then left else "", if k == |xs| - 1 then right else "";
        assert zs[k] == l + xs[k] + r;
        StripSpaces(l, xs[k], r);
      }
      SameTrims(xs, zs);
    }
  }

  lemma SameTrims(xs: seq<string>, zs: seq<string>)
    requires |xs| == |zs| && forall k :: 0 <= k < |xs| ==> Strip(zs[k]) == Strip(xs[k])
    ensures Fields(xs) == Fields(zs)
  {
    hide Strip;
    assert Trims(xs) == Trims(zs);
  }

  // ---------------------------------------------------------------------------
  // Reading slice by slice

  lemma NonEmptyCons(x: string, xs: seq<string>)
    ensures NonEmpty([x] + xs) == (if x == "" then [] else [x]) + NonEmpty(xs)
  {
    assert ([x] + xs)[1..] == xs;
  }

  lemma {:induction false} NonEmptyAppend(a: seq<string>, b: seq<string>)
    ensures NonEmpty(a + b) == NonEmpty(a) + NonEmpty(b)
  {
    if a == [] {
      assert a + b == b;
    } else {
      NonEmptyAppend(a[1..], b);
      NonEmptyCons(a[0], a[1..]);
      NonEmptyCons(a[0], a[1..] + b);
      hide NonEmpty;
      assert a == [a[0]] + a[1..] && a + b == [a[0]] + (a[1..] + b);
    }
  }

  lemma FieldsSnoc(xs: seq<string>)
    requires xs != []
    ensures var x := Strip(xs[|xs| - 1]);
            Fields(xs) == Fields(xs[..|xs| - 1]) + (if x == "" then [] else [x])
  {
    hide Strip;
    var front, x := xs[..|xs| - 1], xs[|xs| - 1];
    TrimsAppend(front, x);
    assert front + [x] == xs;
    NonEmptyAppend(Trims(front), [Strip(x)]);
    assert NonEmpty([Strip(x)][1..]) == [];
  }

  lemma {:induction false} SameTerms(parts: seq<string>, n: nat, m: nat, references: set<string>, digit: char -> bool)
    requires AtMost(parts, n) && AtMost(parts, m)
    ensures ParseTerms(parts, n, references, digit) == ParseTerms(parts, m, references, digit)
    decreases |parts|
  {
    hide ParseTerm;
    if parts != [] {
      SameTerms(parts[..|parts| - 1], n, m, references, digit);
    }
  }

  /** Whitespace at the ends of an expression says nothing. */
  lemma ParseOfStripped(s: string, references: set<string>, digit: char -> bool)
    ensures Parse(Strip(s), references, digit) == Parse(s, references, digit)
  {
    SplitOfStripped(s, '+');
    hide Strip, Split, ParseTerms;
    if Split(s, '+').Some? {
      PartsAreNotLonger(s, '+');
      PartsAreNotLonger(Strip(s), '+');
      SameTerms(Split(s, '+').value, |s|, |Strip(s)|, references, digit);
    }
  }

  lemma NothingRead(references: set<string>, digit: char -> bool)
    ensures Parse("", references, digit) == Some(Expr([]))
  {
    FieldsCons([""]);
    StripKeepsTrimmed("");
  }

  /** The terms of all slices but the last, and of the last one. */
  lemma TermsOfSlices(xs: seq<string>, n: nat, references: set<string>, digit: char -> bool)
    requires xs != [] && AtMost(xs, n)
    ensures AtMost(Fields(xs), n) && AtMost(Fields(xs[..|xs| - 1]), n)
    ensures ParseTerms(Fields(xs), n, references, digit)
         == (var rest := ParseTerms(Fields(xs[..|xs| - 1]), n, references, digit);
             var x := Strip(xs[|xs| - 1]);
             if x == "" || rest.None? then rest
             else match ParseTerm(x, references, digit) case None => None case Some(t) => Some(rest.value + [t]))
  {
    hide Strip, ParseTerm, Fields;
    var x := Strip(xs[|xs| - 1]);
    FieldsAtMost(xs, n);
    FieldsAtMost(xs[..|xs| - 1], n);
    FieldsSnoc(xs);
    if x != "" {
      assert Fields(xs)[..|Fields(xs)| - 1] == Fields(xs[..|xs| - 1]);
    } else {
      assert Fields(xs) == Fields(xs[..|xs| - 1]);
    }
  }

  /** The items of all slices but the last, and of the last one; it need not be trimmed. */
  lemma ItemsOfSlices(xs: seq<string>, n: nat, references: set<string>, digit: char -> bool)
    requires xs != [] && AtMost(xs, n)
    ensures AtMost(Fields(xs), n) && AtMost(Fields(xs[..|xs| - 1]), n)
    ensures ParseItems(Fields(xs), n, references, digit)
         == match ParseItems(Fields(xs[..|xs| - 1]), n, references, digit)
            case None => None
            case Some(items) =>
              match Parse(xs[|xs| - 1], references, digit)
              case None => None
              case Some(e) => Some(items + (if e.terms == [] then [] else [e]))
  {
    hide Strip, Parse, Fields;
    var x := Strip(xs[|xs| - 1]);
    FieldsAtMost(xs, n);
    FieldsAtMost(xs[..|xs| - 1], n);
    FieldsSnoc(xs);
    ParseOfStripped(xs[|xs| - 1], references, digit);
    if x != "" {
      assert Fields(xs)[..|Fields(xs)| - 1] == Fields(xs[..|xs| - 1]);
    } else {
      NothingRead(references, digit);
      assert Fields(xs) == Fields(xs[..|xs| - 1]);
      assert forall items: seq<Expr> :: items + [] == items;
    }
  }

  // ---------------------------------------------------------------------------
  // Quotes that every text closes before what follows

  ghost predicate Shut(t: string) { forall x: string :: QuotesClosed(x) ==> QuotesClosed(t + x) }

  lemma ShutAppend(a: string, b: string)
    requires Shut(a) && Shut(b)
    ensures Shut(a + b)
  {
    forall x: string | QuotesClosed(x) ensures QuotesClosed(a + b + x) {
      assert a + b + x == a + (b + x) && QuotesClosed(b + x);
    }
  }

  lemma {:induction false} UnquotedIsShut(t: string)
    requires NoQuotes(t)
    ensures Shut(t)
  {
    if t == "" {
      assert forall x: string :: t + x == x;
    } else {
      UnquotedIsShut(t[1..]);
      forall x: string | QuotesClosed(x) ensures QuotesClosed(t + x) {
        assert (t + x)[0] == t[0] && (t + x)[1..] == t[1..] + x && QuotesClosed(t[1..] + x);
      }
    }
  }

  lemma QuotedIsShut(mark: char, name: string)
    requires IsQuote(mark) && name != "" && name[|name| - 1] != '\\'
    requires forall k :: 0 <= k < |name| ==> !IsQuote(name[k])
    ensures Shut([mark] + name + [mark])
  {
    var t := [mark] + name + [mark];
    forall x: string | QuotesClosed(x) ensures QuotesClosed(t + x) {
      QuotedIsLiteral(mark, name, x);
      assert (t + x)[|t|..] == x;
    }
  }

  lemma {:induction false} JoinIsShut(ts: seq<string>, d: char)
    requires IsDelimiter(d) && forall k :: 0 <= k < |ts| ==> Shut(ts[k])
    ensures Shut(Join(ts, d))
  {
    hide Shut;
    if ts == [] {
      UnquotedIsShut("");
    } else if |ts| > 1 {
      JoinIsShut(ts[1..], d);
      UnquotedIsShut([d]);
      ShutAppend(ts[0], [d]);
      ShutAppend(ts[0] + [d], Join(ts[1..], d));
    }
  }

  // ---------------------------------------------------------------------------
  // What is written is read

  /** Read before any text it cuts nothing, and it closes its quotes. */
  ghost predicate Compact(t: string, d: char) { ReadsAnywhere(t, d) && Shut(t) }

  lemma CompactAppend(a: string, b: string, d: char)
    requires Compact(a, d) && Compact(b, d)
    ensures Compact(a + b, d)
  {
    hide ReadsAnywhere, Shut;
    AppendReads(a, b, d);
    ShutAppend(a, b);
  }

  lemma SpaceIsCompact(w: string, d: char)
    requires AllSpace(w) && IsDelimiter(d)
    ensures Compact(w, d)
  {
    hide ReadsAnywhere, Shut;
    assert IsFlat(w, d) && NoQuotes(w);
    FlatReads(w, d);
    UnquotedIsShut(w);
  }

  lemma {:induction false} PlaceIsCompact(p: Place, references: set<string>, digit: char -> bool, d: char)
    requires Ordinary(references, digit) && IsPlace(p, references, digit) && IsDelimiter(d)
    ensures Compact(PlaceText(p), d)
    decreases p
  {
    hide Compact, AllSpace, FormText, IsForm, Ordinary;
    match p {
      case Blank(space) => SpaceIsCompact(space, d);
      case Filled(left, form, right) =>
        FormIsField(form, references, digit, d);
        SpaceIsCompact(left, d);
        SpaceIsCompact(right, d);
        CompactAppend(left, FormText(form), d);
        CompactAppend(left + FormText(form), right, d);
    }
  }

  lemma {:induction false} FormIsField(f: Form, references: set<string>, digit: char -> bool, d: char)
    requires Ordinary(references, digit) && IsForm(f, references, digit) && IsDelimiter(d)
    ensures IsField(FormText(f), d) && Compact(FormText(f), d)
    decreases f
  {
    hide ReadsAnywhere, Shut, Ordinary, IsLayout, Trimmed, IsGenerated;
    match f {
      case Marked(mark, name) =>
        FileIsField(mark, name, d);
        QuotedIsShut(mark, name);
      case Bare(text) =>
        NameIsField(text, references, digit, d);
        UnquotedIsShut(text);
      case Brackets(members) =>
        MembersAreNested(members, references, digit, d);
        var inner := Join(MemberTexts(members), ',');
        BracketsRead(inner, d);
        UnquotedIsShut("[");
        UnquotedIsShut("]");
        ShutAppend("[", inner);
        ShutAppend("[" + inner, "]");
        BracketsAreTrimmed(inner);
    }
  }

  lemma BracketsAreTrimmed(inner: string)
    ensures Trimmed("[" + inner + "]")
  {
  }

  lemma {:induction false} MembersAreNested(ms: seq<Layout>, references: set<string>, digit: char -> bool, d: char)
    requires Ordinary(references, digit) && IsDelimiter(d)
    requires forall k :: 0 <= k < |ms| ==> IsLayout(ms[k], references, digit)
    ensures Nested(Join(MemberTexts(ms), ','), d) && Shut(Join(MemberTexts(ms), ','))
    decreases ms
  {
    hide Nested, Shut, Ordinary, IsLayout, Write;
    forall k | 0 <= k < |ms| ensures Nested(MemberTexts(ms)[k], d) && Shut(MemberTexts(ms)[k]) {
      LayoutIsNested(ms[k], references, digit, d);
    }
    NestedJoin(MemberTexts(ms), ',', d);
    JoinIsShut(MemberTexts(ms), ',');
  }

  lemma {:induction false} LayoutIsNested(l: Layout, references: set<string>, digit: char -> bool, d: char)
    requires Ordinary(references, digit) && IsLayout(l, references, digit) && IsDelimiter(d)
    ensures Nested(Write(l), d) && Shut(Write(l))
    decreases l
  {
    hide Nested, Shut, ReadsAnywhere, Ordinary, IsPlace, PlaceText;
    forall k | 0 <= k < |l.places| ensures Nested(PlaceTexts(l.places)[k], d) && Shut(PlaceTexts(l.places)[k]) {
      PlaceIsCompact(l.places[k], references, digit, d);
      NestedReads(PlaceText(l.places[k]), d);
    }
    NestedJoin(PlaceTexts(l.places), '+', d);
    JoinIsShut(PlaceTexts(l.places), '+');
  }

  /** The slices of joined texts are those texts. */
  lemma JoinedRead(ts: seq<string>, d: char)
    requires ts != [] && IsDelimiter(d) && forall k :: 0 <= k < |ts| ==> ReadsAnywhere(ts[k], d)
    ensures Split(Join(ts, d), d) == Some(Fields(ts)) && AtMost(ts, |Join(ts, d)|)
  {
    hide ReadsAnywhere, Slices;
    JoinedSlices(ts, d);
    SlicesAreShorter(Join(ts, d), "", d);
  }

  /** What is written in any layout is read as what it says. */
  lemma {:induction false} LayoutIsRead(l: Layout, references: set<string>, digit: char -> bool)
    requires Ordinary(references, digit) && IsLayout(l, references, digit)
    ensures Parse(Write(l), references, digit) == Some(Written(l))
    decreases l
  {
    hide ReadsAnywhere, Shut, Split, Fields, ParseTerms, Ordinary, IsPlace, PlaceText;
    var texts := PlaceTexts(l.places);
    forall k | 0 <= k < |texts| ensures ReadsAnywhere(texts[k], '+') {
      PlaceIsCompact(l.places[k], references, digit, '+');
    }
    JoinedRead(texts, '+');
    PlacesAreRead(l.places, |Write(l)|, references, digit);
  }

  lemma {:induction false} PlacesAreRead(ps: seq<Place>, n: nat, references: set<string>, digit: char -> bool)
    requires Ordinary(references, digit) && AtMost(PlaceTexts(ps), n)
    requires forall k :: 0 <= k < |ps| ==> IsPlace(ps[k], references, digit)
    ensures AtMost(Fields(PlaceTexts(ps)), n)
    ensures ParseTerms(Fields(PlaceTexts(ps)), n, references, digit) == Some(TermsOf(ps))
    decreases ps
  {
    hide Fields, Strip, ParseTerm, ParseTerms, Ordinary, IsForm, FormText, AtMost, AllSpace, Trimmed, ReadsAnywhere,
      Shut;
    var texts := PlaceTexts(ps);
    if ps == [] {
      NoTerms(n, references, digit);
    } else {
      var k := |ps| - 1;
      assert texts[..k] == PlaceTexts(ps[..k]);
      PrefixAtMost(texts, k, n);
      PlacesAreRead(ps[..k], n, references, digit);
      TermsOfSlices(texts, n, references, digit);
      match ps[k] {
        case Blank(space) =>
          BlankIsStripped(space);
          assert TermsOf(ps[..k]) + [] == TermsOf(ps[..k]);
        case Filled(left, form, right) =>
          FormIsField(form, references, digit, '+');
          StripBetween(left, FormText(form), right);
          FormIsRead(form, references, digit);
      }
    }
  }

  lemma BlankIsStripped(space: string)
    requires AllSpace(space)
    ensures Strip(space) == ""
  {
    StripBetween(space, "", "");
    assert space + "" + "" == space;
  }

  lemma NoTerms(n: nat, references: set<string>, digit: char -> bool)
    ensures AtMost(Fields([]), n)
    ensures ParseTerms(Fields([]), n, references, digit) == Some([])
    ensures ParseItems(Fields([]), n, references, digit) == Some([])
  {
  }

  lemma {:induction false} FormIsRead(f: Form, references: set<string>, digit: char -> bool)
    requires Ordinary(references, digit) && IsForm(f, references, digit)
    ensures ParseTerm(FormText(f), references, digit) == Some(TermOf(f))
    decreases f
  {
    hide ReadsAnywhere, Shut, Split, Fields, ParseItems, Ordinary, IsLayout, IsGenerated;
    match f {
      case Marked(mark, name) => FileIsField(mark, name, '+');
      case Bare(text) => NameIsField(text, references, digit, '+');
      case Brackets(members) =>
        var texts := MemberTexts(members);
        forall k | 0 <= k < |texts| ensures ReadsAnywhere(texts[k], ',') {
          LayoutReads(members[k], references, digit);
        }
        JoinedRead(texts, ',');
        var part := FormText(f);
        assert part[1..|part| - 1] == Join(texts, ',');
        MembersAreRead(members, |Join(texts, ',')|, references, digit);
    }
  }

  lemma LayoutReads(l: Layout, references: set<string>, digit: char -> bool)
    requires Ordinary(references, digit) && IsLayout(l, references, digit)
    ensures ReadsAnywhere(Write(l), ',')
  {
    hide ReadsAnywhere, Shut, Ordinary, IsPlace, PlaceText;
    forall k | 0 <= k < |l.places| ensures ReadsAnywhere(PlaceTexts(l.places)[k], ',') {
      PlaceIsCompact(l.places[k], references, digit, ',');
    }
    SumReads(PlaceTexts(l.places));
  }

  lemma {:induction false} MembersAreRead(ms: seq<Layout>, n: nat, references: set<string>, digit: char -> bool)
    requires Ordinary(references, digit) && AtMost(MemberTexts(ms), n)
    requires forall k :: 0 <= k < |ms| ==> IsLayout(ms[k], references, digit)
    ensures AtMost(Fields(MemberTexts(ms)), n)
    ensures ParseItems(Fields(MemberTexts(ms)), n, references, digit) == Some(ItemsOf(ms))
    decreases ms
  {
    hide Fields, Parse, ParseItems, Ordinary, IsLayout, Write, AtMost, Written;
    var texts := MemberTexts(ms);
    if ms == [] {
      NoTerms(n, references, digit);
    } else {
      var k := |ms| - 1;
      assert texts[..k] == MemberTexts(ms[..k]);
      PrefixAtMost(texts, k, n);
      MembersAreRead(ms[..k], n, references, digit);
      ItemsOfSlices(texts, n, references, digit);
      LayoutIsRead(ms[k], references, digit);
    }
  }

  // ---------------------------------------------------------------------------
  // What is read was written

  lemma {:induction false} SpaceThenClosed(w: string, t: string)
    requires NoQuotes(w) && QuotesClosed(w + t)
    ensures QuotesClosed(t)
  {
    if w == "" {
      assert w + t == t;
    } else {
      assert (w + t)[0] == w[0] && (w + t)[1..] == w[1..] + t;
      SpaceThenClosed(w[1..], t);
    }
  }

  /** A closed text stays closed without an ending that has no quotes. */
  lemma {:induction false} ClosedThenPlain(t: string, w: string)
    requires NoQuotes(w) && QuotesClosed(t + w)
    ensures QuotesClosed(t)
    decreases |t|
  {
    if t != "" {
      var s := t + w;
      var n := TokenLength(s);
      assert s[0] == t[0] && s[1..] == t[1..] + w;
      if IsQuote(s[0]) {
        CloseQuoteEndsAtQuote(s[1..], s[0], false);
        assert s[n - 1] == s[0];
        assert n <= |t|;
        assert s == t[..n] + (t[n..] + w) && t == t[..n] + t[n..];
        LiteralReadsAhead(t[..n], t[n..] + w, t[n..]);
      }
      assert TokenLength(t) == n && s[n..] == t[n..] + w;
      ClosedThenPlain(t[n..], w);
    }
  }

  lemma TokenThenClosed(s: string, y: string)
    requires s != "" && QuotesClosed(s) && QuotesClosed(y)
    ensures QuotesClosed(s[..TokenLength(s)] + y)
  {
    var n := TokenLength(s);
    var t := s[..n] + y;
    assert t[0] == s[0] && t[n..] == y;
    if IsQuote(s[0]) {
      assert s == s[..n] + s[n..];
      LiteralReadsAhead(s[..n], s[n..], y);
    }
  }

  lemma {:induction false} SlicesAreClosed(s: string, stack: string, d: char)
    requires QuotesClosed(s) && Slices(s, stack, d).Some?
    ensures forall k :: 0 <= k < |Slices(s, stack, d).value| ==> QuotesClosed(Slices(s, stack, d).value[k])
    decreases |s|
  {
    hide TokenLength;
    if s != "" {
      var n := TokenLength(s);
      match Step(s[..n], stack, d) {
        case Cut =>
          SlicesAreClosed(s[n..], "", d);
        case Keep(stack') =>
          SlicesAreClosed(s[n..], stack', d);
          TokenThenClosed(s, Slices(s[n..], stack', d).value[0]);
      }
    }
  }

  lemma SpaceIsUnquoted(w: string)
    requires AllSpace(w)
    ensures NoQuotes(w)
  {
  }

  lemma StripIsClosed(x: string) returns (left: string, right: string)
    requires QuotesClosed(x)
    ensures x == left + Strip(x) + right && AllSpace(left) && AllSpace(right) && QuotesClosed(Strip(x))
  {
    left, right := StripSplits(x);
    hide Strip, AllSpace, NoQuotes;
    SpaceIsUnquoted(left);
    SpaceIsUnquoted(right);
    ClosedThenPlain(left + Strip(x), right);
    SpaceThenClosed(left, Strip(x));
  }

  /** The slices of a closed text, which join to it. */
  lemma ClosedSlices(s: string, d: char) returns (xs: seq<string>)
    requires QuotesClosed(s) && Split(s, d).Some?
    ensures xs != [] && s == Join(xs, d) && Split(s, d) == Some(Fields(xs)) && AtMost(xs, |s|)
    ensures forall k :: 0 <= k < |xs| ==> QuotesClosed(xs[k])
  {
    hide Slices, QuotesClosed, Fields;
    xs := Slices(s, "", d).value;
    SlicesRebuild(s, "", d);
    SlicesAreShorter(s, "", d);
    SlicesAreClosed(s, "", d);
  }

  /** A layout of a text that closes its quotes and is read. */
  lemma {:induction false} LayOut(text: string, references: set<string>, digit: char -> bool) returns (l: Layout)
    requires QuotesClosed(text) && Parse(text, references, digit).Some?
    ensures IsLayout(l, references, digit) && Write(l) == text && Some(Written(l)) == Parse(text, references, digit)
    decreases |text|, 3, 0
  {
    hide Split, Fields, ParseTerms, IsPlace, QuotesClosed;
    var xs := ClosedSlices(text, '+');
    PartsAreNotLonger(text, '+');
    var ps := LayOutPlaces(xs, |text|, references, digit);
    l := Layout(ps);
  }

  lemma {:induction false} LayOutPlaces(xs: seq<string>, n: nat, references: set<string>, digit: char -> bool)
    returns (ps: seq<Place>)
    requires AtMost(xs, n) && AtMost(Fields(xs), n) && ParseTerms(Fields(xs), n, references, digit).Some?
    requires forall k :: 0 <= k < |xs| ==> QuotesClosed(xs[k])
    ensures PlaceTexts(ps) == xs && Some(TermsOf(ps)) == ParseTerms(Fields(xs), n, references, digit)
    ensures forall k :: 0 <= k < |ps| ==> IsPlace(ps[k], references, digit)
    decreases n, 2, |xs|
  {
    hide Fields, Strip, ParseTerm, ParseTerms, IsPlace, PlaceText, QuotesClosed;
    ps := [];
    if xs == [] {
      NoTerms(n, references, digit);
    } else {
      var k := |xs| - 1;
      TermsOfSlices(xs, n, references, digit);
      var front := LayOutPlaces(xs[..k], n, references, digit);
      var place := LayOutPlace(xs[k], references, digit);
      ps := front + [place];
      assert ps[..k] == front && xs == xs[..k] + [xs[k]];
      assert TermsOf(front) + [] == TermsOf(front);
    }
  }

  lemma {:induction false} LayOutPlace(x: string, references: set<string>, digit: char -> bool) returns (p: Place)
    requires QuotesClosed(x) && (Strip(x) != "" ==> ParseTerm(Strip(x), references, digit).Some?)
    ensures PlaceText(p) == x && IsPlace(p, references, digit)
    ensures match p
            case Blank(_) => Strip(x) == ""
            case Filled(_, form, _) => Strip(x) != "" && ParseTerm(Strip(x), references, digit) == Some(TermOf(form))
    decreases |x|, 1, 1
  {
    hide Strip, ParseTerm, IsForm, FormText, QuotesClosed, AllSpace;
    var left, right := StripIsClosed(x);
    if Strip(x) == "" {
      BlankSlice(x, left, right);
      p := Blank(x);
    } else {
      StripNotLonger(x);
      var form := LayOutTerm(Strip(x), references, digit);
      p := Filled(left, form, right);
    }
  }

  lemma BlankSlice(x: string, left: string, right: string)
    requires AllSpace(left) && AllSpace(right) && x == left + "" + right
    ensures AllSpace(x)
  {
  }

  lemma {:induction false} LayOutTerm(part: string, references: set<string>, digit: char -> bool) returns (f: Form)
    requires QuotesClosed(part) && ParseTerm(part, references, digit).Some?
    ensures IsForm(f, references, digit) && FormText(f) == part && Some(TermOf(f)) == ParseTerm(part, references, digit)
    decreases |part|, 1, 0
  {
    hide Split, Fields, ParseItems, IsGenerated, IsLayout;
    if FileLiteral(part).Some? {
      MarksAgree(part);
      f := Marked(part[0], FileLiteral(part).value);
    } else if IsList(part) {
      var inner := part[1..|part| - 1];
      assert part == ("[" + inner) + "]";
      ClosedThenPlain("[" + inner, "]");
      SpaceThenClosed("[", inner);
      hide QuotesClosed, NoQuotes;
      var xs := ClosedSlices(inner, ',');
      PartsAreNotLonger(inner, ',');
      var ms := LayOutMembers(xs, |inner|, references, digit);
      f := Brackets(ms);
    } else {
      f := Bare(part);
    }
  }

  /** In a closed text a quoted file ends with the mark it begins with. */
  lemma MarksAgree(part: string)
    requires QuotesClosed(part) && FileLiteral(part).Some?
    ensures part == [part[0]] + FileLiteral(part).value + [part[0]]
  {
    var n := LiteralLength(part).value;
    CloseQuoteEndsAtQuote(part[1..], part[0], false);
    assert part[n - 1] == part[0] && IsQuote(part[n - 1]);
    assert n == |part|;
  }

  lemma {:induction false} LayOutMembers(xs: seq<string>, n: nat, references: set<string>, digit: char -> bool)
    returns (ms: seq<Layout>)
    requires AtMost(xs, n) && AtMost(Fields(xs), n) && ParseItems(Fields(xs), n, references, digit).Some?
    requires forall k :: 0 <= k < |xs| ==> QuotesClosed(xs[k])
    ensures MemberTexts(ms) == xs && Some(ItemsOf(ms)) == ParseItems(Fields(xs), n, references, digit)
    ensures forall k :: 0 <= k < |ms| ==> IsLayout(ms[k], references, digit)
    decreases n, 4, |xs|
  {
    hide Fields, Parse, ParseItems, IsLayout, Write, Written, QuotesClosed;
    ms := [];
    if xs == [] {
      NoTerms(n, references, digit);
    } else {
      var k := |xs| - 1;
      ItemsOfSlices(xs, n, references, digit);
      var front := LayOutMembers(xs[..k], n, references, digit);
      var member := LayOut(xs[k], references, digit);
      ms := front + [member];
      assert ms[..k] == front;
    }
  }

  lemma LayoutClosesQuotes(l: Layout, references: set<string>, digit: char -> bool)
    requires Ordinary(references, digit) && IsLayout(l, references, digit)
    ensures QuotesClosed(Write(l))
  {
    hide IsLayout, Write, Ordinary;
    LayoutIsNested(l, references, digit, '+');
    assert Write(l) + "" == Write(l) && QuotesClosed("");
  }

  /** The texts that are read as `e` and close their quotes are exactly the layouts of `e`. */
  lemma {:induction false} ReadsExactlyWhatIsWritten(text: string, e: Expr, references: set<string>,
                                                     digit: char -> bool)
    requires Ordinary(references, digit)
    ensures Parse(text, references, digit) == Some(e) && QuotesClosed(text)
       <==> exists l :: IsLayout(l, references, digit) && Write(l) == text && Written(l) == e
  {
    hide Parse, QuotesClosed, IsLayout, Write, Written, Ordinary;
    if Parse(text, references, digit) == Some(e) && QuotesClosed(text) {
      var l := LayOut(text, references, digit);
      assert IsLayout(l, references, digit) && Write(l) == text && Written(l) == e;
    }
    if l :| IsLayout(l, references, digit) && Write(l) == text && Written(l) == e {
      LayoutIsRead(l, references, digit);
      LayoutClosesQuotes(l, references, digit);
    }
  }

  /** A text with mixed quotation marks, which leaves a quote open, is read as a file too. */
  lemma {:induction false} SomeOpenTextIsRead(references: set<string>, digit: char -> bool)
    ensures !QuotesClosed("'a.c\"") && Parse("'a.c\"", references, digit) == Some(Expr([File("a.c")]))
  {
    var text := "'a.c\"";
    var d := '+';
    hide ParseTerms;
    OpenSlices(d);
    FieldsCons([text]);
    StripKeepsTrimmed(text);
    assert Split(text, d) == Some([text]);
    OpenFile(references, digit);
    TermsOfOne(text, references, digit);
  }

  lemma OpenFile(references: set<string>, digit: char -> bool)
    ensures ParseTerm("'a.c\"", references, digit) == Some(File("a.c"))
  {
    var part := "'a.c\"";
    assert part[1..|part| - 1] == "a.c" && "a.c"[1..] == ".c";
  }

  lemma TermsOfOne(part: string, references: set<string>, digit: char -> bool)
    requires AtMost([part], |part|)
    ensures ParseTerms([part], |part|, references, digit)
         == match ParseTerm(part, references, digit) case None => None case Some(t) => Some([t])
  {
    hide ParseTerm;
    assert [part][..0] == [];
    assert ParseTerms([], |part|, references, digit) == Some([]);
    assert forall t: Term :: [] + [t] == [t];
  }

  lemma OpenSlices(d: char)
    requires d == '+'
    ensures !QuotesClosed("'a.c\"") && Slices("'a.c\"", "", d) == Some(["'a.c\""])
  {
    var s := "'a.c\"";
    NoQuoteOpen(s[1..], '\'', false);
    assert s[4..] == "\"";
    SinglesAreWhole(s, d);
    WholeAlone(s, "", d);
  }

  lemma {:induction false} SinglesAreWhole(t: string, d: char)
    requires forall k :: 0 <= k < |t| ==> TokenLength(t[k..]) == 1 && !IsOpen(t[k]) && !IsClose(t[k]) && t[k] != d
    ensures Whole(t, "", "", d)
  {
    hide TokenLength;
    if t != "" {
      assert t + "" == t == t[0..];
      forall k | 0 <= k < |t[1..]| ensures TokenLength(t[1..][k..]) == 1 {
        assert t[1..][k..] == t[k + 1..];
      }
      SinglesAreWhole(t[1..], d);
    }
  }

  // ---------------------------------------------------------------------------
  // The normal form

  /** The layout without whitespace and empty places, in single quotation marks. */
  function Simple(e: Expr): Layout {
    Layout(if e.terms == [] then [Blank("")] else SimplePlaces(e.terms))
  }

  function SimplePlaces(ts: seq<Term>): seq<Place> {
    if ts == [] then [] else SimplePlaces(ts[..|ts| - 1]) + [Filled("", SimpleForm(ts[|ts| - 1]), "")]
  }

  function SimpleForm(t: Term): Form {
    match t
    case File(name) => Marked('\'', name)
    case Named(text) => Bare(text)
    case List(items) => Brackets(if items == [] then [Layout([Blank("")])] else SimpleMembers(items))
  }

  function SimpleMembers(items: seq<Expr>): seq<Layout> {
    if items == [] then [] else SimpleMembers(items[..|items| - 1]) + [Simple(items[|items| - 1])]
  }

  lemma {:induction false} SimpleIsLayout(e: Expr, references: set<string>, digit: char -> bool)
    requires Grammatical(e, references, digit)
    ensures IsLayout(Simple(e), references, digit) && Written(Simple(e)) == e
    decreases e
  {
    hide GrammaticalTerm, IsPlace;
    SimplePlacesSay(e.terms, references, digit);
    assert e == Expr(e.terms);
    if e.terms == [] {
      assert IsPlace(Blank(""), references, digit) by {
        BlankIsPlace(references, digit);
      }
      assert TermsOf([Blank("")][..0]) == [];
    }
  }

  lemma BlankIsPlace(references: set<string>, digit: char -> bool)
    ensures IsPlace(Blank(""), references, digit)
  {
  }

  lemma NothingSaid()
    ensures TermsOf([]) == [] && ItemsOf([]) == []
  {
  }

  lemma PlaceAdded(ps: seq<Place>, form: Form)
    ensures TermsOf(ps + [Filled("", form, "")]) == TermsOf(ps) + [TermOf(form)]
  {
    assert (ps + [Filled("", form, "")])[..|ps|] == ps;
  }

  lemma MemberAdded(ms: seq<Layout>, m: Layout)
    requires Written(m).terms != []
    ensures ItemsOf(ms + [m]) == ItemsOf(ms) + [Written(m)]
  {
    assert (ms + [m])[..|ms|] == ms;
  }

  lemma {:induction false} SimplePlacesSay(ts: seq<Term>, references: set<string>, digit: char -> bool)
    requires forall k :: 0 <= k < |ts| ==> GrammaticalTerm(ts[k], references, digit)
    ensures var ps := SimplePlaces(ts);
            |ps| == |ts| && TermsOf(ps) == ts && forall k :: 0 <= k < |ps| ==> IsPlace(ps[k], references, digit)
    decreases ts
  {
    hide GrammaticalTerm, IsForm, TermsOf, TermOf, SimpleForm;
    if ts == [] {
      NothingSaid();
    } else {
      var k := |ts| - 1;
      SimplePlacesSay(ts[..k], references, digit);
      SimpleFormSays(ts[k], references, digit);
      PlaceAdded(SimplePlaces(ts[..k]), SimpleForm(ts[k]));
      assert ts == ts[..k] + [ts[k]];
    }
  }

  lemma {:induction false} SimpleFormSays(t: Term, references: set<string>, digit: char -> bool)
    requires GrammaticalTerm(t, references, digit)
    ensures IsForm(SimpleForm(t), references, digit) && TermOf(SimpleForm(t)) == t
    decreases t
  {
    hide Grammatical, IsLayout, IsFile, IsGenerated, ItemsOf, SimpleMembers;
    match t {
      case File(_) =>
      case Named(_) =>
      case List(items) =>
        SimpleMembersSay(items, references, digit);
        if items == [] {
          EmptyMember(references, digit);
        }
    }
  }

  lemma EmptyMember(references: set<string>, digit: char -> bool)
    ensures IsLayout(Layout([Blank("")]), references, digit) && ItemsOf([Layout([Blank("")])]) == []
  {
    assert TermsOf([Blank("")][..0]) == [] && ItemsOf([Layout([Blank("")])][..0]) == [];
  }

  lemma {:induction false} SimpleMembersSay(items: seq<Expr>, references: set<string>, digit: char -> bool)
    requires forall k :: 0 <= k < |items| ==> items[k].terms != [] && Grammatical(items[k], references, digit)
    ensures var ms := SimpleMembers(items);
            |ms| == |items| && ItemsOf(ms) == items && forall k :: 0 <= k < |ms| ==> IsLayout(ms[k], references, digit)
    decreases items
  {
    hide Grammatical, IsLayout, Simple, Written, ItemsOf;
    if items == [] {
      NothingSaid();
    } else {
      var k := |items| - 1;
      SimpleMembersSay(items[..k], references, digit);
      SimpleIsLayout(items[k], references, digit);
      MemberAdded(SimpleMembers(items[..k]), Simple(items[k]));
      assert items == items[..k] + [items[k]];
    }
  }

  function Print(e: Expr): string { Write(Simple(e)) }

  /** Every expression of the grammar, printed, is read as itself. */
  lemma {:induction false} PrintedExpressionReads(e: Expr, references: set<string>, digit: char -> bool)
    requires Ordinary(references, digit) && Grammatical(e, references, digit)
    ensures Parse(Print(e), references, digit) == Some(e)
  {
    hide Parse, Ordinary, IsLayout;
    SimpleIsLayout(e, references, digit);
    LayoutIsRead(Simple(e), references, digit);
  }

  /** Accepted text can be printed in a normal form that reads the same. */
  lemma {:induction false} AcceptedTextHasNormalForm(text: string, references: set<string>, digit: char -> bool)
    requires Ordinary(references, digit) && Parse(text, references, digit).Some?
    ensures Parse(Print(Parse(text, references, digit).value), references, digit) == Parse(text, references, digit)
  {
    hide Parse, Ordinary;
    ReadExpressionIsGrammatical(text, references, digit);
    PrintedExpressionReads(Parse(text, references, digit).value, references, digit);
  }
}
