/** Source expressions of Meson build files: the supported subset and the C files it names.
    Reading an expression yields its tree; the evaluation visits the same parts and
    adds the files of the tree to the common set. */
module Meson {
  import opened Options
  import opened Lexer
  import opened Text
  import opened Splitter

  predicate EndsWith(s: string, suffix: string) { |s| >= |suffix| && s[|s| - |suffix|..] == suffix }

  /** The text between two quotation marks, if it holds none itself. */
  function Quoted(part: string): Option<string> {
    if |part| >= 3 && IsQuote(part[0]) && IsQuote(part[|part| - 1])
       && forall k :: 1 <= k < |part| - 1 ==> !IsQuote(part[k])
    then Some(part[1..|part| - 1]) else None
  }

  predicate IsFile(name: string, extension: string) { |name| > |extension| && EndsWith(name, extension) }

  /** A quoted C source or header. */
  function FileLiteral(part: string): Option<string> {
    match Quoted(part)
    case None => None
    case Some(name) => if IsFile(name, ".c") || IsFile(name, ".h") then Some(name) else None
  }

  predicate IsList(part: string) { |part| >= 2 && part[0] == '[' && part[|part| - 1] == ']' }

  const GENERATED := {"enums", "flatpak_gdbus", "flatpak_document_gdbus", "flatpak_permission_gdbus",
                      "systemd_gdbus", "flatpak_variant", "wl_security_context"}

  /** A generated target, whole or one of its outputs by number. */
  predicate IsGenerated(part: string, digit: char -> bool) {
    part in GENERATED || exists g :: g in GENERATED && IsOutput(part, g, digit)
  }

  predicate IsOutput(part: string, g: string, digit: char -> bool) {
    && |part| >= |g| + 3 && part[..|g|] == g && part[|g|] == '[' && part[|part| - 1] == ']'
    && forall k :: |g| < k < |part| - 1 ==> digit(part[k])
  }

  /** What an expression says: a sum of files, named or generated sources, and lists. */
  datatype Expr = Expr(terms: seq<Term>)
  datatype Term = File(name: string) | Named(text: string) | List(items: seq<Expr>)

  /** The C sources of an expression; headers and generated sources are not among them. */
  function Denotes(e: Expr): set<string> {
    DenotesTerms(e.terms)
  }

  function DenotesTerms(ts: seq<Term>): set<string> {
    if ts == [] then {} else DenotesTerms(ts[..|ts| - 1]) + DenotesTerm(ts[|ts| - 1])
  }

  function DenotesTerm(t: Term): set<string> {
    match t
    case File(name) => if EndsWith(name, ".c") then {name} else {}
    case Named(_) => {}
    case List(items) => DenotesItems(items)
  }

  function DenotesItems(items: seq<Expr>): set<string> {
    if items == [] then {} else DenotesItems(items[..|items| - 1]) + Denotes(items[|items| - 1])
  }

  /** The file stands somewhere in the expression. */
  ghost predicate Occurs(name: string, e: Expr) { OccursAmong(name, e.terms) }

  ghost predicate OccursAmong(name: string, ts: seq<Term>)
    decreases ts
  {
    exists k :: 0 <= k < |ts| &&
      match ts[k]
      case File(file) => file == name
      case Named(_) => false
      case List(items) => exists j :: 0 <= j < |items| && OccursAmong(name, items[j].terms)
  }

  /** A name with the ending of a C file. */
  predicate IsC(name: string) { |name| >= 2 && name[|name| - 2] == '.' && name[|name| - 1] == 'c' }

  lemma CEnding(name: string)
    ensures EndsWith(name, ".c") <==> IsC(name)
  {
    if |name| >= 2 {
      assert name[|name| - 2..] == [name[|name| - 2], name[|name| - 1]];
    }
  }

  /** What an expression denotes: the C files that stand in it, and nothing else. */
  lemma {:induction false} DenotesItsCFiles(e: Expr, name: string)
    ensures name in Denotes(e) <==> IsC(name) && Occurs(name, e)
    decreases e
  {
    TermsDenoteCFiles(e.terms, name);
  }

  lemma {:induction false} TermsDenoteCFiles(ts: seq<Term>, name: string)
    ensures name in DenotesTerms(ts) <==> IsC(name) && OccursAmong(name, ts)
    decreases ts
  {
    if ts != [] {
      var n := |ts| - 1;
      TermsDenoteCFiles(ts[..n], name);
      TermDenotesCFiles(ts[n], name);
      OccursSnoc(name, ts[..n], ts[n]);
      assert ts == ts[..n] + [ts[n]];
    }
  }

  lemma OccursSnoc(name: string, ts: seq<Term>, t: Term)
    ensures OccursAmong(name, ts + [t]) <==> OccursAmong(name, ts) || OccursAmong(name, [t])
  {
    var all := ts + [t];
    assert forall k :: 0 <= k < |ts| ==> all[k] == ts[k];
    assert all[|ts|] == t == [t][0];
  }

  lemma {:induction false} TermDenotesCFiles(t: Term, name: string)
    ensures name in DenotesTerm(t) <==> IsC(name) && OccursAmong(name, [t])
    decreases t
  {
    assert [t][0] == t;
    match t {
      case File(file) => CEnding(file);
      case Named(_) =>
      case List(items) => ItemsDenoteCFiles(items, name);
    }
  }

  lemma {:induction false} ItemsDenoteCFiles(items: seq<Expr>, name: string)
    ensures name in DenotesItems(items) <==>
              IsC(name) && exists j :: 0 <= j < |items| && OccursAmong(name, items[j].terms)
    decreases items
  {
    hide IsC;
    if items != [] {
      var n := |items| - 1;
      ItemsDenoteCFiles(items[..n], name);
      DenotesItsCFiles(items[n], name);
      assert forall k :: 0 <= k < n ==> items[..n][k] == items[k];
    }
  }

  lemma {:induction false} SlicesAreShorter(s: string, stack: string, d: char)
    requires Slices(s, stack, d).Some?
    ensures forall k :: 0 <= k < |Slices(s, stack, d).value| ==> |Slices(s, stack, d).value[k]| <= |s|
    decreases |s|
  {
    if s != "" {
      var n := TokenLength(s);
      match Step(s[..n], stack, d) {
        case Cut =>
          SlicesAreShorter(s[n..], "", d);
        case Keep(stack') =>
          SlicesAreShorter(s[n..], stack', d);
      }
    }
  }

  lemma {:induction false} NonEmptyAreAmong(xs: seq<string>)
    ensures forall p :: p in NonEmpty(xs) ==> p in xs
  {
    if xs != [] {
      NonEmptyAreAmong(xs[1..]);
    }
  }

  lemma {:induction false} PartsAreNotLonger(s: string, d: char)
    requires Split(s, d).Some?
    ensures AtMost(Split(s, d).value, |s|)
  {
    hide Slices;
    SlicesAreShorter(s, "", d);
    FieldsAtMost(Slices(s, "", d).value, |s|);
  }

  lemma FieldsAtMost(xs: seq<string>, n: nat)
    requires forall k :: 0 <= k < |xs| ==> |xs[k]| <= n
    ensures AtMost(Fields(xs), n)
  {
    hide NonEmpty, Strip;
    NonEmptyAreAmong(Trims(xs));
    forall k | 0 <= k < |Fields(xs)| ensures |Fields(xs)[k]| <= n {
      var part := Fields(xs)[k];
      assert part in Trims(xs);
      var i :| 0 <= i < |xs| && Trims(xs)[i] == part;
      StripNotLonger(xs[i]);
    }
  }

  lemma StripNotLonger(x: string)
    ensures |Strip(x)| <= |x|
  {
  }

  predicate AtMost(parts: seq<string>, n: nat) { forall k :: 0 <= k < |parts| ==> |parts[k]| <= n }

  // ---------------------------------------------------------------------------
  // Reading an expression; nothing if it is not supported

  function Parse(text: string, references: set<string>, digit: char -> bool): Option<Expr>
    decreases |text|, 3, 0
  {
    match Split(text, '+')
    case None => None
    case Some(parts) =>
      PartsAreNotLonger(text, '+');
      match ParseTerms(parts, |text|, references, digit) case None => None case Some(ts) => Some(Expr(ts))
  }

  function ParseTerms(parts: seq<string>, n: nat, references: set<string>, digit: char -> bool): Option<seq<Term>>
    requires AtMost(parts, n)
    decreases n, 2, |parts|
  {
    if parts == [] then Some([])
    else
      assert AtMost(parts[..|parts| - 1], n);
      match ParseTerms(parts[..|parts| - 1], n, references, digit)
      case None => None
      case Some(ts) =>
        match ParseTerm(parts[|parts| - 1], references, digit) case None => None case Some(t) => Some(ts + [t])
  }

  function ParseTerm(part: string, references: set<string>, digit: char -> bool): Option<Term>
    decreases |part|, 1, 0
  {
    match FileLiteral(part)
    case Some(name) => Some(File(name))
    case None =>
      if IsList(part) then
        var inner := part[1..|part| - 1];
        match Split(inner, ',')
        case None => None
        case Some(members) =>
          PartsAreNotLonger(inner, ',');
          match ParseItems(members, |inner|, references, digit) case None => None case Some(items) => Some(List(items))
      else if IsGenerated(part, digit) || part in references then Some(Named(part))
      else None
  }

  /** The list members; one without any term says nothing and is left out. */
  function ParseItems(members: seq<string>, n: nat, references: set<string>, digit: char -> bool): Option<seq<Expr>>
    requires AtMost(members, n)
    decreases n, 4, |members|
  {
    if members == [] then Some([])
    else
      assert AtMost(members[..|members| - 1], n);
      match ParseItems(members[..|members| - 1], n, references, digit)
      case None => None
      case Some(items) =>
        match Parse(members[|members| - 1], references, digit)
        case None => None
        case Some(e) => Some(items + (if e.terms == [] then [] else [e]))
  }

  lemma {:induction false} TermsPrefixFails(parts: seq<string>, k: nat, n: nat, references: set<string>,
                                            digit: char -> bool)
    requires k <= |parts| && AtMost(parts, n) && AtMost(parts[..k], n)
    requires ParseTerms(parts[..k], n, references, digit).None?
    ensures ParseTerms(parts, n, references, digit).None?
    decreases |parts|
  {
    hide ParseTerm;
    if k == |parts| {
      assert parts[..k] == parts;
    } else {
      var front := parts[..|parts| - 1];
      assert front[..k] == parts[..k];
      TermsPrefixFails(front, k, n, references, digit);
    }
  }

  lemma {:induction false} ItemsPrefixFails(members: seq<string>, k: nat, n: nat, references: set<string>,
                                            digit: char -> bool)
    requires k <= |members| && AtMost(members, n) && AtMost(members[..k], n)
    requires ParseItems(members[..k], n, references, digit).None?
    ensures ParseItems(members, n, references, digit).None?
    decreases |members|
  {
    hide Parse;
    if k == |members| {
      assert members[..k] == members;
    } else {
      var front := members[..|members| - 1];
      assert front[..k] == members[..k];
      ItemsPrefixFails(front, k, n, references, digit);
    }
  }

  lemma DenotesOneMore(items: seq<Expr>, e: Expr)
    ensures DenotesItems(items + (if e.terms == [] then [] else [e])) == DenotesItems(items) + Denotes(e)
  {
    if e.terms == [] {
      assert items + [] == items;
    } else {
      assert (items + [e])[..|items|] == items;
    }
  }

  lemma DenotesTermAdded(ts: seq<Term>, t: Term)
    ensures DenotesTerms(ts + [t]) == DenotesTerms(ts) + DenotesTerm(t)
  {
    assert (ts + [t])[..|ts|] == ts;
  }

  // ---------------------------------------------------------------------------
  // The evaluation, which adds to the common set of sources as it goes

  class Evaluation {
    var cSources: set<string>
    const digit: char -> bool

    constructor (digit: char -> bool)
      ensures cSources == {} && this.digit == digit
    {
      this.digit := digit;
      cSources := {};
    }

    /** Adds the C sources of an expression; unsupported or unbalanced text raises. */
    method SourceExpression(expression: string, references: set<string>) returns (ok: bool)
      modifies `cSources
      ensures ok <==> Parse(expression, references, digit).Some?
      ensures ok ==> cSources == old(cSources) + Denotes(Parse(expression, references, digit).value)
      decreases |expression|, 1
    {
      hide Split, ParseTerm, AtMost, DenotesTerms;
      var parts := SplitC(expression, '+');
      if parts.None? {
        return false;
      }
      PartsAreNotLonger(expression, '+');
      ghost var n := |expression|;
      PrefixAtMost(parts.value, 0, n);
      ghost var ts: seq<Term> := [];
      NothingDenoted();
      for i := 0 to |parts.value|
        invariant AtMost(parts.value[..i], n)
        invariant ParseTerms(parts.value[..i], n, references, digit) == Some(ts)
        invariant cSources == old(cSources) + DenotesTerms(ts)
      {
        PrefixAtMost(parts.value, i + 1, n);
        assert parts.value[..i + 1][..i] == parts.value[..i];
        ok := SourcePart(parts.value[i], references);
        if !ok {
          TermsPrefixFails(parts.value, i + 1, n, references, digit);
          return false;
        }
        DenotesTermAdded(ts, ParseTerm(parts.value[i], references, digit).value);
        ts := ts + [ParseTerm(parts.value[i], references, digit).value];
      }
      assert parts.value[..|parts.value|] == parts.value;
      return true;
    }

    method SourcePart(part: string, references: set<string>) returns (ok: bool)
      modifies `cSources
      ensures ok <==> ParseTerm(part, references, digit).Some?
      ensures ok ==> cSources == old(cSources) + DenotesTerm(ParseTerm(part, references, digit).value)
      decreases |part|, 0
    {
      hide Split, Parse, AtMost, IsGenerated, FileLiteral, EndsWith, DenotesItems, Denotes;
      var literal := FileLiteral(part);
      if literal.Some? {
        if EndsWith(literal.value, ".c") {
          cSources := cSources + {literal.value};
        }
        return true;
      }
      if !IsList(part) {
        return IsGenerated(part, digit) || part in references;
      }
      var inner := part[1..|part| - 1];
      var members := SplitC(inner, ',');
      if members.None? {
        return false;
      }
      PartsAreNotLonger(inner, ',');
      ghost var n := |inner|;
      PrefixAtMost(members.value, 0, n);
      ghost var items: seq<Expr> := [];
      NothingDenoted();
      for i := 0 to |members.value|
        invariant AtMost(members.value[..i], n)
        invariant ParseItems(members.value[..i], n, references, digit) == Some(items)
        invariant cSources == old(cSources) + DenotesItems(items)
      {
        PrefixAtMost(members.value, i + 1, n);
        assert members.value[..i + 1][..i] == members.value[..i];
        ok := SourceExpression(members.value[i], references);
        if !ok {
          ItemsPrefixFails(members.value, i + 1, n, references, digit);
          return false;
        }
        ghost var e := Parse(members.value[i], references, digit).value;
        DenotesOneMore(items, e);
        items := items + (if e.terms == [] then [] else [e]);
      }
      assert members.value[..|members.value|] == members.value;
      return true;
    }
  }

  lemma NothingDenoted()
    ensures DenotesTerms([]) == {} && DenotesItems([]) == {}
  {
  }

  lemma PrefixAtMost(parts: seq<string>, k: nat, n: nat)
    requires AtMost(parts, n) && k <= |parts|
    ensures AtMost(parts[..k], n) && (k > 0 ==> |parts[..k][k - 1]| <= n)
  {
  }
}
