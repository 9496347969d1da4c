/** C text as it is written: code, closed literals and comments, and what is left of each. */
module WrittenText {
  import opened Options
  import opened Lexer

  /** A character of a literal, plain or behind a backslash. */
  datatype Glyph = One(c: char) | Escaped(c: char)

  datatype Piece = Code(c: char) | Quoted(mark: char, glyphs: seq<Glyph>) | Block(body: string) | Line(body: string)

  function WriteGlyph(g: Glyph): string { match g case One(c) => [c] case Escaped(c) => ['\\', c] }

  function WriteBody(gs: seq<Glyph>): string { if gs == [] then "" else WriteGlyph(gs[0]) + WriteBody(gs[1..]) }

  function Write(p: Piece): string {
    match p
    case Code(c) => [c]
    case Quoted(mark, body) => [mark] + WriteBody(body) + [mark]
    case Block(body) => "/*" + body + "*/"
    case Line(body) => "//" + body
  }

  function WriteAll(ps: seq<Piece>): string { if ps == [] then "" else Write(ps[0]) + WriteAll(ps[1..]) }

  /** The text with spaces in place of all its characters but the line ends. */
  function Spaces(s: string): string { if s == "" then "" else (if s[0] == '\n' then "\n" else " ") + Spaces(s[1..]) }

  /** What is left of a piece: comments are blank. */
  function LeftOf(p: Piece): string { if p.Block? || p.Line? then Spaces(Write(p)) else Write(p) }

  function LeftOfAll(ps: seq<Piece>): string { if ps == [] then "" else LeftOf(ps[0]) + LeftOfAll(ps[1..]) }

  /** A piece is what it is taken for: a literal is closed by the first mark that is not escaped, a
      block by the first star and slash, a line by the end of the line. */
  predicate PieceOk(p: Piece) {
    match p
    case Code(c) => c != '"' && c != '\''
    case Quoted(mark, body) =>
      && (mark == '"' || mark == '\'')
      && forall k :: 0 <= k < |body| ==> (body[k].One? ==> body[k].c != mark && body[k].c != '\\')
    case Block(body) => forall k :: 0 <= k < |body| - 1 ==> !(body[k] == '*' && body[k + 1] == '/')
    case Line(body) => '\n' !in body
  }

  /** Nothing before or behind a piece makes it part of another. */
  predicate Apart(ps: seq<Piece>) {
    forall i :: 0 <= i < |ps| ==>
      && (ps[i].Line? && i + 1 < |ps| ==> ps[i + 1] == Code('\n'))
      && (ps[i] == Code('/') && i + 1 < |ps| ==> !(ps[i + 1].Block? || ps[i + 1].Line?)
                                                 && ps[i + 1] != Code('/') && ps[i + 1] != Code('*'))
  }

  // ---------------------------------------------------------------------------
  // Piece by piece

  lemma {:induction false} SpacesAreBlank(s: string)
    ensures Spaces(s) == Blank(s)
  {
    if s != "" {
      SpacesAreBlank(s[1..]);
      assert Blank(s) == [BlankChar(s[0])] + Blank(s[1..]);
    }
  }

  lemma {:induction false} BodyCloses(gs: seq<Glyph>, mark: char, rest: string)
    requires PieceOk(Quoted(mark, gs))
    ensures CloseQuote(WriteBody(gs) + [mark] + rest, mark, false) == Some(|WriteBody(gs)| + 1)
  {
    var s := WriteBody(gs) + [mark] + rest;
    if gs == [] {
      assert s[0] == mark;
    } else {
      assert PieceOk(Quoted(mark, gs[1..]));
      BodyCloses(gs[1..], mark, rest);
      var tail := WriteBody(gs[1..]) + [mark] + rest;
      match gs[0]
      case One(c) => assert s[0] == c && s[1..] == tail;
      case Escaped(c) =>
        assert s[0] == '\\' && s[1..][0] == c && s[1..][1..] == tail;
    }
  }

  lemma QuotedStays(mark: char, body: seq<Glyph>, rest: string)
    requires PieceOk(Quoted(mark, body))
    ensures Uncomment(Write(Quoted(mark, body)) + rest) == Write(Quoted(mark, body)) + Uncomment(rest)
  {
    var t := Write(Quoted(mark, body));
    var s := t + rest;
    BodyCloses(body, mark, rest);
    assert s[0] == mark && s[1..] == WriteBody(body) + [mark] + rest;
    assert LiteralLength(s) == Some(|t|) && s[..|t|] == t && s[|t|..] == rest;
    assert NextToken(s) == Literal(t);
  }

  lemma {:induction false} BlockCloses(body: string, rest: string)
    requires PieceOk(Block(body))
    ensures CloseBlock(body + "*/" + rest) == Some(|body| + 2)
  {
    var s := body + "*/" + rest;
    if body != "" {
      var tail := body[1..];
      forall k | 0 <= k < |tail| - 1 ensures !(tail[k] == '*' && tail[k + 1] == '/') {
        assert tail[k] == body[k + 1] && tail[k + 1] == body[k + 1 + 1];
      }
      BlockCloses(body[1..], rest);
      assert s[0] == body[0] && s[1..] == body[1..] + "*/" + rest;
      assert s[1] == if |body| > 1 then body[1] else '*';
      assert !EndsBlock(s, 2);
    }
  }

  lemma BlockGoes(body: string, rest: string)
    requires PieceOk(Block(body))
    ensures Uncomment(Write(Block(body)) + rest) == Spaces(Write(Block(body))) + Uncomment(rest)
  {
    var t := Write(Block(body));
    var s := t + rest;
    BlockCloses(body, rest);
    SpacesAreBlank(t);
    assert s[2..] == body + "*/" + rest && s[0] == '/' && s[1] == '*';
    assert CommentLength(s) == Some(|t|) && s[..|t|] == t && s[|t|..] == rest;
  }

  lemma {:induction false} LineStops(body: string, rest: string)
    requires '\n' !in body && (rest != "" ==> rest[0] == '\n')
    ensures LineLength(body + rest) == |body|
  {
    if body == "" {
      assert body + rest == rest;
    } else {
      LineStops(body[1..], rest);
      assert (body + rest)[1..] == body[1..] + rest && (body + rest)[0] == body[0];
    }
  }

  lemma LineGoes(body: string, rest: string)
    requires PieceOk(Line(body)) && (rest != "" ==> rest[0] == '\n')
    ensures Uncomment(Write(Line(body)) + rest) == Spaces(Write(Line(body))) + Uncomment(rest)
  {
    var t := Write(Line(body));
    var s := t + rest;
    LineStops(body, rest);
    SpacesAreBlank(t);
    assert s[2..] == body + rest && s[0] == '/' && s[1] == '/';
    assert CommentLength(s) == Some(|t|) && s[..|t|] == t && s[|t|..] == rest;
  }

  lemma CodeStays(c: char, rest: string)
    requires PieceOk(Code(c)) && (c == '/' && rest != "" ==> rest[0] != '/' && rest[0] != '*')
    ensures Uncomment([c] + rest) == [c] + Uncomment(rest)
  {
    var s := [c] + rest;
    assert s[1..] == rest && (rest != "" ==> s[1] == rest[0]);
    assert NextToken(s) == Plain(c);
  }

  lemma NextBegins(ps: seq<Piece>)
    requires ps != [] && PieceOk(ps[0])
    ensures var s := WriteAll(ps);
            s != "" && s[0] == match ps[0] case Code(c) => c case Quoted(mark, _) => mark case _ => '/'
  {
  }

  /** Any text of code, literals and comments keeps its code and its literals, with their escapes, and
      has spaces and line ends in place of both kinds of comment. */
  lemma {:induction false} CommentsBecomeSpaces(ps: seq<Piece>)
    requires (forall i :: 0 <= i < |ps| ==> PieceOk(ps[i])) && Apart(ps)
    ensures Uncomment(WriteAll(ps)) == LeftOfAll(ps)
  {
    if ps != [] {
      var rest := ps[1..];
      assert Apart(rest) by {
        assert forall i :: 0 <= i < |rest| ==> rest[i] == ps[i + 1];
      }
      CommentsBecomeSpaces(rest);
      if rest != [] {
        assert rest[0] == ps[0 + 1];
        NextBegins(rest);
      }
      hide Uncomment, Spaces;
      match ps[0]
      case Code(c) => CodeStays(c, WriteAll(rest));
      case Quoted(mark, body) => QuotedStays(mark, body, WriteAll(rest));
      case Block(body) => BlockGoes(body, WriteAll(rest));
      case Line(body) => LineGoes(body, WriteAll(rest));
    }
  }
}
