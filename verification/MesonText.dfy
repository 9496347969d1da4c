/** The text of a build file: comments, assignments and calls, written and read. */
module MesonText {
  import opened Lexer
  import opened Options
  import opened Text
  import opened MesonInputs

  // ---------------------------------------------------------------------------
  // Comments

  /** A character, a quoted text or a comment that runs to the end of its line. */
  datatype Piece = Code(c: char) | Quote(mark: char, body: string) | Remark(body: string)

  predicate PieceOk(p: Piece) {
    match p
    case Code(c) => !IsQuote(c) && c != '#'
    case Quote(mark, body) => IsQuote(mark) && mark !in body
    case Remark(body) => '\n' !in body
  }

  function Render(p: Piece): string {
    match p
    case Code(c) => [c]
    case Quote(mark, body) => [mark] + body + [mark]
    case Remark(body) => "#" + body + "\n"
  }

  function RenderAll(ps: seq<Piece>): string { if ps == [] then "" else Render(ps[0]) + RenderAll(ps[1..]) }

  function CodeOf(p: Piece): string { if p.Remark? then "\n" else Render(p) }

  function CodeOfAll(ps: seq<Piece>): string { if ps == [] then "" else CodeOf(ps[0]) + CodeOfAll(ps[1..]) }

  lemma {:induction false} UptoFirst(a: string, c: char, rest: string)
    requires c !in a
    ensures Upto(a + [c] + rest, c) == |a|
  {
    if a == "" {
      assert (a + [c] + rest)[0] == c;
    } else {
      UptoFirst(a[1..], c, rest);
      assert (a + [c] + rest)[1..] == a[1..] + [c] + rest && (a + [c] + rest)[0] == a[0];
    }
  }

  lemma QuoteStays(mark: char, body: string, rest: string)
    requires PieceOk(Quote(mark, body))
    ensures Uncommented(Render(Quote(mark, body)) + rest) == Render(Quote(mark, body)) + Uncommented(rest)
  {
    var q := Render(Quote(mark, body));
    var s := q + rest;
    UptoFirst(body, mark, rest);
    assert s[1..] == body + [mark] + rest;
    assert QuoteEnd(s) == Some(|q|);
    assert s[..|q|] == q && s[|q|..] == rest;
  }

  lemma RemarkGoes(body: string, rest: string)
    requires PieceOk(Remark(body))
    ensures Uncommented(Render(Remark(body)) + rest) == "\n" + Uncommented(rest)
  {
    var s, line := Render(Remark(body)) + rest, "\n" + rest;
    LineEnds(body, rest);
    assert s[1..] == body + "\n" + rest && s[0] == '#';
    assert s[1 + |body|..] == line;
    assert line[0] == '\n' && line[1..] == rest;
    assert Uncommented(line) == "\n" + Uncommented(rest);
  }

  lemma {:induction false} LineEnds(body: string, rest: string)
    requires '\n' !in body
    ensures LineLength(body + "\n" + rest) == |body|
  {
    if body == "" {
      assert (body + "\n" + rest)[0] == '\n';
    } else {
      LineEnds(body[1..], rest);
      assert (body + "\n" + rest)[1..] == body[1..] + "\n" + rest && (body + "\n" + rest)[0] == body[0];
    }
  }

  lemma CodeStays(c: char, rest: string)
    requires PieceOk(Code(c))
    ensures Uncommented([c] + rest) == [c] + Uncommented(rest)
  {
    assert ([c] + rest)[1..] == rest;
  }

  lemma Regroup(a: string, b: string, c: string)
    ensures (a + b) + c == a + (b + c)
  {
  }

  /** Comments are removed from any text of code, quoted text and comments, and nothing else is:
      not a number sign within quotes. */
  lemma {:induction false} OnlyCommentsAreRemoved(ps: seq<Piece>, rest: string)
    requires forall i :: 0 <= i < |ps| ==> PieceOk(ps[i])
    ensures Uncommented(RenderAll(ps) + rest) == CodeOfAll(ps) + Uncommented(rest)
  {
    hide Uncommented, PieceOk;
    if ps == [] {
      assert "" + rest == rest && "" + Uncommented(rest) == Uncommented(rest);
    } else {
      var tail := RenderAll(ps[1..]) + rest;
      Regroup(Render(ps[0]), RenderAll(ps[1..]), rest);
      OnlyCommentsAreRemoved(ps[1..], rest);
      match ps[0] {
        case Code(c) => CodeStays(c, tail);
        case Quote(mark, body) => QuoteStays(mark, body, tail);
        case Remark(body) => RemarkGoes(body, tail);
      }
      Regroup(CodeOf(ps[0]), CodeOfAll(ps[1..]), Uncommented(rest));
    }
  }

  /** A text without a number sign has no comments. */
  lemma {:induction false} NothingIsRemoved(s: string)
    requires '#' !in s
    ensures Uncommented(s) == s
    decreases |s|
  {
    if s != "" {
      var n := match QuoteEnd(s) case Some(n) => n case None => 1;
      assert s == s[..n] + s[n..];
      NothingIsRemoved(s[n..]);
    }
  }

  // ---------------------------------------------------------------------------
  // Statements

  predicate IsName(name: string, word: char -> bool) { name != "" && forall k :: 0 <= k < |name| ==> word(name[k]) }

  /** Whitespace and punctuation are not parts of names. */
  ghost predicate Separates(word: char -> bool) {
    !word('=') && !word('+') && !word(':') && !word('(') && forall c :: IsSpace(c) ==> !word(c)
  }

  predicate IsLetter(c: char) { 'a' <= c <= 'z' || c == '_' }

  /** Letters are parts of names, punctuation is not. */
  ghost predicate Letters(word: char -> bool) { Separates(word) && forall c :: IsLetter(c) ==> word(c) }

  predicate IsWordOf(name: string) { name != "" && forall k :: 0 <= k < |name| ==> IsLetter(name[k]) }

  lemma {:induction false} RunOfName(name: string, rest: string, word: char -> bool)
    requires (forall k :: 0 <= k < |name| ==> word(name[k])) && (rest != "" ==> !word(rest[0]))
    ensures WordRun(name + rest, word) == |name|
  {
    if name == "" {
      assert name + rest == rest;
    } else {
      RunOfName(name[1..], rest, word);
      assert (name + rest)[1..] == name[1..] + rest && (name + rest)[0] == name[0];
    }
  }

  lemma {:induction false} SkipOf(s: string, i: nat, n: nat)
    requires i + n <= |s| && (forall k :: i <= k < i + n ==> IsSpace(s[k])) && (i + n < |s| ==> !IsSpace(s[i + n]))
    ensures SkipSpace(s, i) == i + n
    decreases n
  {
    if n > 0 {
      SkipOf(s, i + 1, n - 1);
    }
  }

  /** Past a name, whitespace, an operator and more whitespace. */
  lemma Scanned(name: string, left: string, op: string, right: string, value: string, word: char -> bool)
    requires AllSpace(left) && AllSpace(right) && (value != "" ==> !IsSpace(value[0]))
    requires op != "" && !IsSpace(op[0])
    ensures var s := name + left + op + right + value;
            && SkipSpace(s, |name|) == |name| + |left| && SkipSpace(s, |name| + |left| + |op|) == |s| - |value|
            && s[|name| + |left|..|name| + |left| + |op|] == op && s[..|name|] == name && s[|s| - |value|..] == value
  {
    var s := name + left + op + right + value;
    var i, j := |name|, |name| + |left| + |op|;
    assert forall k :: i <= k < i + |left| ==> s[k] == left[k - i];
    assert forall k :: j <= k < j + |right| ==> s[k] == right[k - j];
    assert s[i + |left|] == op[0];
    assert value != "" ==> s[j + |right|] == value[0];
    SkipOf(s, i, |left|);
    SkipOf(s, j, |right|);
    assert s[i + |left|..j] == op;
  }

  /** A name ends where whitespace or an operator begins. */
  lemma RunBefore(name: string, left: string, op: string, right: string, value: string, word: char -> bool)
    requires IsName(name, word) && Separates(word) && AllSpace(left) && op != "" && !word(op[0])
    ensures WordRun(name + left + op + right + value, word) == |name|
  {
    var rest := left + op + right + value;
    assert name + left + op + right + value == name + rest;
    assert rest[0] == if left != "" then left[0] else op[0];
    RunOfName(name, rest, word);
  }

  /** A written assignment is read back: its name, its operator and its value. */
  lemma {:induction false} WrittenAssignmentReads(name: string, left: string, appended: bool, right: string,
                                                  value: string, word: char -> bool)
    requires IsName(name, word) && Separates(word) && AllSpace(left) && AllSpace(right)
    requires (value != "" ==> !IsSpace(value[0]))
    ensures AssignmentOf(name + left + (if appended then "+=" else "=") + right + value, word) ==
            Some(Assignment(name, Definition(appended, value)))
  {
    hide SkipSpace, WordRun, AllSpace;
    var op := if appended then "+=" else "=";
    var s := name + left + op + right + value;
    RunBefore(name, left, op, right, value, word);
    Scanned(name, left, op, right, value, word);
    var j := |name| + |left|;
    assert s[j..j + |op|][0] == s[j];
    if appended {
      assert s[j..j + |op|][1] == s[j + 1];
    }
  }

  /** A written keyword argument is read back. */
  lemma {:induction false} WrittenKeywordReads(name: string, left: string, right: string, value: string,
                                               word: char -> bool)
    requires IsName(name, word) && Separates(word) && AllSpace(left) && AllSpace(right)
    requires (value != "" ==> !IsSpace(value[0]))
    ensures KeywordOf(name + left + ":" + right + value, word) == Some((name, value))
  {
    hide SkipSpace, WordRun, AllSpace;
    var s := name + left + ":" + right + value;
    RunBefore(name, left, ":", right, value, word);
    Scanned(name, left, ":", right, value, word);
    var j := |name| + |left|;
    assert s[j..j + 1][0] == s[j];
  }

  /** A written call is read back: its arguments, whatever they are. */
  lemma {:induction false} WrittenCallReads(name: string, left: string, args: string)
    requires AllSpace(left)
    ensures CallOf(name + left + "(" + args + ")", name) == Some(args)
  {
    var s := name + left + "(" + args + ")";
    var j := |name| + |left|;
    assert forall k :: |name| <= k < j ==> s[k] == left[k - |name|];
    assert s[j] == '(' && s[..|name|] == name;
    SkipOf(s, |name|, |left|);
    assert s[j + 1..|s| - 1] == args;
  }
}
