/** Quote- and comment-aware scanning of C text, and the removal of comments. */
module Lexer {
  // The regular expressions of the generator are written out as scanners over the
  // remaining text. A quote or a comment opener with no closer does not match, so
  // it falls back to a one-character token; every lemma below holds for such text.

  import opened Options

  function Shift(n: nat, r: Option<nat>): Option<nat> {
    match r case None => None case Some(v) => Some(n + v)
  }

  predicate IsQuote(c: char) { c == '"' || c == '\'' }

  /** Number of characters up to and including the quote that closes a literal whose
      remaining text is `s`; `skip` says that the next character is escaped. */
  function CloseQuote(s: string, quote: char, skip: bool): (r: Option<nat>)
    ensures r.Some? ==> 0 < r.value <= |s|
  {
    if s == "" then None
    else if skip then Shift(1, CloseQuote(s[1..], quote, false))
    else if s[0] == '\\' then Shift(1, CloseQuote(s[1..], quote, true))
    else if s[0] == quote then Some(1)
    else Shift(1, CloseQuote(s[1..], quote, false))
  }

  /** Whether the character after `s` is escaped, given whether `s` starts escaped. */
  function SkipAfter(s: string, skip: bool): bool {
    if s == "" then skip else SkipAfter(s[1..], !skip && s[0] == '\\')
  }

  /** Number of characters up to and including the first star-slash. */
  function CloseBlock(s: string): (r: Option<nat>)
    ensures r.Some? ==> 2 <= r.value <= |s| && EndsBlock(s, r.value)
    ensures r.None? ==> forall k :: 2 <= k <= |s| ==> !EndsBlock(s, k)
  {
    if |s| < 2 then None
    else if EndsBlock(s, 2) then Some(2)
    else
      assert forall k :: 3 <= k <= |s| ==> EndsBlock(s, k) == EndsBlock(s[1..], k - 1);
      Shift(1, CloseBlock(s[1..]))
  }

  predicate EndsBlock(s: string, n: nat)
    requires 2 <= n <= |s|
  {
    s[n - 2] == '*' && s[n - 1] == '/'
  }

  /** Number of characters before the first newline, or all of them. */
  function LineLength(s: string): (n: nat)
    ensures n <= |s| && (n < |s| ==> s[n] == '\n')
    ensures forall k :: 0 <= k < n ==> s[k] != '\n'
  {
    if s == "" || s[0] == '\n' then 0 else 1 + LineLength(s[1..])
  }

  function LiteralLength(s: string): (r: Option<nat>)
    ensures r.Some? ==> 2 <= r.value <= |s|
  {
    if s != "" && IsQuote(s[0]) then Shift(1, CloseQuote(s[1..], s[0], false)) else None
  }

  function CommentLength(s: string): (r: Option<nat>)
    ensures r.Some? ==> 2 <= r.value <= |s|
  {
    if |s| < 2 || s[0] != '/' then None
    else if s[1] == '*' then Shift(2, CloseBlock(s[2..]))
    else if s[1] == '/' then Some(2 + LineLength(s[2..]))
    else None
  }

  datatype Token = Comment(text: string) | Literal(text: string) | Plain(c: char) {
    function Text(): string {
      match this case Plain(c) => [c] case _ => text
    }
  }

  function NextToken(s: string): (t: Token)
    requires s != ""
    ensures 0 < |t.Text()| <= |s| && t.Text() == s[..|t.Text()|]
  {
    match CommentLength(s)
    case Some(n) => Comment(s[..n])
    case None =>
      match LiteralLength(s)
      case Some(n) => Literal(s[..n])
      case None => Plain(s[0])
  }

  function Rest(s: string): string
    requires s != ""
  {
    s[|NextToken(s).Text()|..]
  }

  function Lex(s: string): seq<Token> {
    if s == "" then [] else [NextToken(s)] + Lex(Rest(s))
  }

  function BlankChar(c: char): char { if c == '\n' then c else ' ' }

  function Blank(s: string): (r: string)
    ensures |r| == |s| && forall k :: 0 <= k < |s| ==> r[k] == BlankChar(s[k])
  {
    seq(|s|, k requires 0 <= k < |s| => BlankChar(s[k]))
  }

  /** The text with every comment replaced by spaces, its newlines kept. */
  function Uncomment(s: string): string {
    if s == "" then ""
    else
      var t := NextToken(s);
      (if t.Comment? then Blank(t.text) else t.Text()) + Uncomment(Rest(s))
  }

  // ---------------------------------------------------------------------------
  // Offsets

  /** Where offset `k` of the text falls: inside a comment or not. */
  predicate InComment(s: string, k: nat)
    requires k < |s|
    decreases |s|
  {
    var t := NextToken(s);
    if k < |t.Text()| then t.Comment? else InComment(Rest(s), k - |t.Text()|)
  }

  /** Offsets found in the uncommented text are offsets into the original text. */
  lemma {:induction false} UncommentKeepsOffsets(s: string)
    ensures |Uncomment(s)| == |s|
    ensures forall k :: 0 <= k < |s| ==>
      Uncomment(s)[k] == if InComment(s, k) then BlankChar(s[k]) else s[k]
    ensures forall k :: 0 <= k < |s| ==> (Uncomment(s)[k] == '\n' <==> s[k] == '\n')
    decreases |s|
  {
    if s != "" {
      UncommentKeepsOffsets(Rest(s));
      var n := |NextToken(s).Text()|;
      forall k | 0 <= k < |s|
        ensures Uncomment(s)[k] == if InComment(s, k) then BlankChar(s[k]) else s[k]
      {
        assert k >= n ==> s[k] == Rest(s)[k - n];
      }
    }
  }

  // ---------------------------------------------------------------------------
  // Scanning a concatenation

  lemma {:induction false} CloseQuoteAppend(a: string, b: string, quote: char, skip: bool)
    ensures CloseQuote(a + b, quote, skip) ==
            if CloseQuote(a, quote, skip).Some? then CloseQuote(a, quote, skip)
            else Shift(|a|, CloseQuote(b, quote, SkipAfter(a, skip)))
  {
    if a == "" {
      assert a + b == b;
    } else {
      var s := a + b;
      assert s[0] == a[0] && s[1..] == a[1..] + b;
      if skip || a[0] == '\\' || a[0] != quote {
        CloseQuoteAppend(a[1..], b, quote, !skip && a[0] == '\\');
      }
    }
  }

  lemma {:induction false} SkipAfterAppend(a: string, b: string, skip: bool)
    ensures SkipAfter(a + b, skip) == SkipAfter(b, SkipAfter(a, skip))
  {
    if a == "" {
      assert a + b == b;
    } else {
      assert (a + b)[1..] == a[1..] + b;
      SkipAfterAppend(a[1..], b, !skip && a[0] == '\\');
    }
  }

  lemma {:induction false} BlankIsTransparent(s: string, quote: char, skip: bool)
    requires IsQuote(quote)
    ensures CloseQuote(Blank(s), quote, skip) == None
    ensures s != "" ==> !SkipAfter(Blank(s), skip)
  {
    if s != "" {
      assert Blank(s)[1..] == Blank(s[1..]);
      BlankIsTransparent(s[1..], quote, false);
    }
  }

  /** The last character of a comment leaves no escape open, except before a newline. */
  lemma CommentEndsUnescaped(s: string, skip: bool)
    requires s != "" && NextToken(s).Comment?
    ensures SkipAfter(NextToken(s).text, skip) ==> Rest(s) == "" || Rest(s)[0] == '\n'
  {
    var t := NextToken(s).text;
    if s[1] == '*' {
      var n := CloseBlock(s[2..]).value;
      assert t[|t| - 2] == s[2..][n - 2] == '*' && t[|t| - 1] == s[2..][n - 1] == '/';
      assert t == t[..|t| - 2] + ['*'] + ['/'];
      SkipAfterAppend(t[..|t| - 2] + ['*'], ['/'], skip);
      SkipAfterAppend(t[..|t| - 2], ['*'], skip);
    } else {
      var n := LineLength(s[2..]);
      assert Rest(s) == s[2..][n..];
    }
  }

  /** A quote left open by the original text is left open by the uncommented text. */
  lemma {:induction false} OpenQuoteStaysOpen(s: string, quote: char, skip: bool)
    requires IsQuote(quote) && CloseQuote(s, quote, skip).None?
    ensures CloseQuote(Uncomment(s), quote, skip).None?
    decreases |s|
  {
    if s != "" {
      var t, rest := NextToken(s), Rest(s);
      assert s == t.Text() + rest;
      CloseQuoteAppend(t.Text(), rest, quote, skip);
      if t.Comment? {
        CommentEndsUnescaped(s, skip);
        if SkipAfter(t.text, skip) && rest != "" {
          assert CloseQuote(rest, quote, true) == CloseQuote(rest, quote, false);
        }
        OpenQuoteStaysOpen(rest, quote, false);
        BlankIsTransparent(t.text, quote, skip);
        CloseQuoteAppend(Blank(t.text), Uncomment(rest), quote, skip);
      } else {
        OpenQuoteStaysOpen(rest, quote, SkipAfter(t.Text(), skip));
        CloseQuoteAppend(t.Text(), Uncomment(rest), quote, skip);
      }
    }
  }

  /** A block comment left open by the original text is left open by the uncommented text. */
  lemma {:induction false} OpenBlockStaysOpen(s: string)
    requires CloseBlock(s).None?
    ensures CloseBlock(Uncomment(s)).None?
  {
    UncommentKeepsOffsets(s);
    forall k | 2 <= k <= |s| ensures !EndsBlock(Uncomment(s), k) {
      assert !EndsBlock(s, k);
    }
  }

  // ---------------------------------------------------------------------------
  // Lexing the result again

  function Plains(s: string): seq<Token> {
    seq(|s|, k requires 0 <= k < |s| => Plain(s[k]))
  }

  /** The tokens of the text with each comment replaced by its blanks. */
  function Blanked(ts: seq<Token>): seq<Token> {
    if ts == [] then []
    else (if ts[0].Comment? then Plains(Blank(ts[0].text)) else [ts[0]]) + Blanked(ts[1..])
  }

  lemma PlainHead(c: char, s: string)
    requires c == ' ' || c == '\n'
    ensures Lex([c] + s) == [Plain(c)] + Lex(s)
  {
    var w := [c] + s;
    assert w[0] == c && w[1..] == s;
    assert NextToken(w) == Plain(c);
  }

  lemma PlainsCons(s: string)
    requires s != ""
    ensures Plains(s) == [Plain(s[0])] + Plains(s[1..])
  {
  }

  lemma {:induction false} LexBlanks(b: string, s: string)
    requires forall k :: 0 <= k < |b| ==> b[k] == ' ' || b[k] == '\n'
    ensures Lex(b + s) == Plains(b) + Lex(s)
  {
    if b == "" {
      assert b + s == s;
    } else {
      var c, b' := b[0], b[1..];
      calc {
        Lex(b + s);
        { assert b + s == [c] + (b' + s); }
        Lex([c] + (b' + s));
        { PlainHead(c, b' + s); }
        [Plain(c)] + Lex(b' + s);
        { LexBlanks(b', s); }
        [Plain(c)] + (Plains(b') + Lex(s));
        { PlainsCons(b); }
        Plains(b) + Lex(s);
      }
    }
  }

  /** A literal is read the same whatever follows it. */
  lemma LiteralReadsAhead(t: string, x: string, y: string)
    requires LiteralLength(t + x) == Some(|t|)
    ensures LiteralLength(t + y) == Some(|t|)
  {
    var s, u := t + x, t + y;
    assert s[0] == t[0] == u[0] && s[1..] == t[1..] + x && u[1..] == t[1..] + y;
    CloseQuoteAppend(t[1..], x, t[0], false);
    CloseQuoteAppend(t[1..], y, t[0], false);
  }

  lemma {:induction false} LiteralSurvives(s: string)
    requires s != "" && NextToken(s).Literal?
    ensures var u := Uncomment(s); u != "" && NextToken(u) == NextToken(s) && Rest(u) == Uncomment(Rest(s))
  {
    var t := NextToken(s).text;
    assert s == t + Rest(s);
    LiteralReadsAhead(t, Rest(s), Uncomment(Rest(s)));
    var u := t + Uncomment(Rest(s));
    assert u[0] == s[0] && u[..|t|] == t && u[|t|..] == Uncomment(Rest(s));
  }

  lemma {:induction false} PlainSurvives(s: string)
    requires s != "" && NextToken(s).Plain?
    ensures var u := Uncomment(s); u != "" && NextToken(u) == NextToken(s) && Rest(u) == Uncomment(Rest(s))
  {
    var c, rest := s[0], Rest(s);
    var v := Uncomment(rest);
    var u := [c] + v;
    assert rest == s[1..] && u[1..] == v;
    UncommentKeepsOffsets(rest);
    if IsQuote(c) {
      OpenQuoteStaysOpen(rest, c, false);
    }
    if c == '/' && v != "" {
      assert v[0] == rest[0];
      if v[0] == '*' {
        assert rest[0] == '*' && NextToken(rest) == Plain('*');
        assert v == ['*'] + Uncomment(rest[1..]);
        OpenBlockStaysOpen(rest[1..]);
        assert s[2..] == rest[1..] && u[2..] == Uncomment(rest[1..]);
      }
    }
  }

  /** Lexing the uncommented text gives the same tokens, each comment replaced by blanks. */
  lemma {:induction false} Relex(s: string)
    ensures Lex(Uncomment(s)) == Blanked(Lex(s))
    decreases |s|
  {
    if s != "" {
      var t := NextToken(s);
      Relex(Rest(s));
      assert Lex(s)[1..] == Lex(Rest(s));
      match t {
        case Comment(text) => LexBlanks(Blank(text), Uncomment(Rest(s)));
        case Literal(_) => LiteralSurvives(s);
        case Plain(_) => PlainSurvives(s);
      }
    }
  }

  lemma {:induction false} BlankedHasNoComment(ts: seq<Token>)
    ensures forall t :: t in Blanked(ts) ==> !t.Comment?
  {
    if ts != [] {
      BlankedHasNoComment(ts[1..]);
    }
  }

  lemma {:induction false} NoCommentIsUnchanged(s: string)
    requires forall t :: t in Lex(s) ==> !t.Comment?
    ensures Uncomment(s) == s
    decreases |s|
  {
    if s != "" {
      var t, ts := NextToken(s), Lex(Rest(s));
      assert Lex(s) == [t] + ts;
      assert t in Lex(s) && forall t' :: t' in ts ==> t' in Lex(s);
      NoCommentIsUnchanged(Rest(s));
      assert s == t.Text() + Rest(s);
    }
  }

  /** No comment is left, and uncommenting again changes nothing. */
  lemma {:induction false} UncommentIsIdempotent(s: string)
    ensures forall t :: t in Lex(Uncomment(s)) ==> !t.Comment?
    ensures Uncomment(Uncomment(s)) == Uncomment(s)
  {
    Relex(s);
    BlankedHasNoComment(Lex(s));
    NoCommentIsUnchanged(Uncomment(s));
  }

  function Literals(ts: seq<Token>): seq<string> {
    if ts == [] then []
    else (if ts[0].Literal? then [ts[0].text] else []) + Literals(ts[1..])
  }

  lemma {:induction false} LiteralsAppend(a: seq<Token>, b: seq<Token>)
    ensures Literals(a + b) == Literals(a) + Literals(b)
  {
    if a == [] {
      assert a + b == b;
    } else {
      assert (a + b)[1..] == a[1..] + b;
      LiteralsAppend(a[1..], b);
    }
  }

  lemma {:induction false} PlainsHaveNoLiterals(s: string)
    ensures Literals(Plains(s)) == []
  {
    if s != "" {
      assert Plains(s)[1..] == Plains(s[1..]);
      PlainsHaveNoLiterals(s[1..]);
    }
  }

  lemma {:induction false} BlankedKeepsLiterals(ts: seq<Token>)
    ensures Literals(Blanked(ts)) == Literals(ts)
  {
    if ts != [] {
      BlankedKeepsLiterals(ts[1..]);
      var first := if ts[0].Comment? then Plains(Blank(ts[0].text)) else [ts[0]];
      LiteralsAppend(first, Blanked(ts[1..]));
      if ts[0].Comment? {
        PlainsHaveNoLiterals(Blank(ts[0].text));
      }
    }
  }

  /** The string and character literals are exactly those of the original, in order. */
  lemma {:induction false} UncommentKeepsLiterals(s: string)
    ensures Literals(Lex(Uncomment(s))) == Literals(Lex(s))
  {
    Relex(s);
    BlankedKeepsLiterals(Lex(s));
  }
}
