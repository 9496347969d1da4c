/** What splitting promises: it accepts exactly the balanced texts and loses nothing. */
module SplitterLaws {
  import opened Options
  import opened Splitter

  // ---------------------------------------------------------------------------
  // The bracket grammar

  /** The bracket tokens of the text, outside literals. */
  function Brackets(s: string): string
    decreases |s|
  {
    if s == "" then ""
    else
      var n := TokenLength(s);
      (if n == 1 && (IsOpen(s[0]) || IsClose(s[0])) then [s[0]] else "") + Brackets(s[n..])
  }

  datatype Bracket = Round | Curly | Square {
    function Left(): char { match this case Round => '(' case Curly => '{' case Square => '[' }

    function Right(): char { match this case Round => ')' case Curly => '}' case Square => ']' }
  }

  /** Word ::= empty | left Word right Word. */
  datatype Word = Empty | Nest(kind: Bracket, inner: Word, next: Word)

  function Yield(w: Word): string {
    match w
    case Empty => ""
    case Nest(k, inner, next) => [k.Left()] + Yield(inner) + [k.Right()] + Yield(next)
  }

  ghost predicate Balanced(s: string) { exists w: Word :: Yield(w) == Brackets(s) }

  /** The stack machine on bracket characters alone. */
  predicate Accepts(b: string, stack: string) {
    if b == "" then stack == ""
    else if IsOpen(b[0]) then Accepts(b[1..], stack + [Closer(b[0])])
    else stack != "" && stack[|stack| - 1] == b[0] && Accepts(b[1..], stack[..|stack| - 1])
  }

  lemma {:induction false} SlicesReadBrackets(s: string, stack: string, d: char)
    ensures Slices(s, stack, d).Some? <==> Accepts(Brackets(s), stack)
    decreases |s|
  {
    if s != "" {
      var n := TokenLength(s);
      var rest := Brackets(s[n..]);
      if n == 1 && (IsOpen(s[0]) || IsClose(s[0])) {
        assert Brackets(s) == [s[0]] + rest;
        assert Brackets(s)[1..] == rest;
      } else {
        assert Brackets(s) == rest;
      }
      match Step(s[..n], stack, d)
      case Fail =>
      case Cut => SlicesReadBrackets(s[n..], "", d);
      case Keep(stack') => SlicesReadBrackets(s[n..], stack', d);
    }
  }

  /** A balanced word leaves the stack as it found it. */
  lemma {:induction false} WordKeepsStack(w: Word, b: string, stack: string)
    ensures Accepts(Yield(w) + b, stack) <==> Accepts(b, stack)
    decreases w
  {
    match w
    case Empty =>
      assert Yield(w) + b == b;
    case Nest(k, inner, next) =>
      var after := [k.Right()] + (Yield(next) + b);
      var pushed := stack + [k.Right()];
      assert Yield(w) + b == [k.Left()] + (Yield(inner) + after);
      assert (Yield(w) + b)[1..] == Yield(inner) + after;
      WordKeepsStack(inner, after, pushed);
      assert pushed[..|pushed| - 1] == stack && after[1..] == Yield(next) + b;
      WordKeepsStack(next, b, stack);
  }

  /** What remains to be read over a stack: a word, its closer, a word, its closer, and so on. */
  function Pending(words: seq<Word>, stack: string): string
    requires |words| == |stack| + 1
    decreases |stack|
  {
    if stack == "" then Yield(words[0])
    else Yield(words[0]) + [stack[|stack| - 1]] + Pending(words[1..], stack[..|stack| - 1])
  }

  function KindOf(c: char): Bracket
    requires IsOpen(c)
  {
    if c == '(' then Round else if c == '{' then Curly else Square
  }

  lemma {:induction false} PendingNest(c: char, ws: seq<Word>, stack: string) returns (words: seq<Word>)
    requires IsOpen(c) && |ws| == |stack| + 2
    ensures |words| == |stack| + 1 && Pending(words, stack) == [c] + Pending(ws, stack + [Closer(c)])
  {
    var w := Nest(KindOf(c), ws[0], ws[1]);
    words := [w] + ws[2..];
    var pushed := stack + [Closer(c)];
    assert pushed[..|pushed| - 1] == stack;
    assert words[1..] == ws[2..] == ws[1..][1..];
    var y0, y1, close := Yield(ws[0]), Yield(ws[1]), [Closer(c)];
    assert Pending(ws, pushed) == y0 + close + Pending(ws[1..], stack);
    assert Yield(w) == [c] + y0 + close + y1;
    if stack == "" {
      assert [c] + (y0 + close + y1) == Yield(w);
    } else {
      var top, below := [stack[|stack| - 1]], Pending(ws[2..], stack[..|stack| - 1]);
      assert Pending(ws[1..], stack) == y1 + top + below;
      assert Pending(words, stack) == Yield(w) + top + below;
      Reassociate([c], y0, close, y1, top, below);
    }
  }

  lemma Reassociate(a: string, b: string, c: string, d: string, e: string, f: string)
    ensures a + (b + c + (d + e + f)) == (a + b + c + d) + e + f
  {
  }

  lemma {:induction false} AcceptedIsPending(b: string, stack: string) returns (words: seq<Word>)
    requires Accepts(b, stack)
    ensures |words| == |stack| + 1 && b == Pending(words, stack)
    decreases |b|
  {
    if b == "" {
      words := [Empty];
    } else if IsOpen(b[0]) {
      var ws := AcceptedIsPending(b[1..], stack + [Closer(b[0])]);
      words := PendingNest(b[0], ws, stack);
      assert b == [b[0]] + b[1..];
    } else {
      var ws := AcceptedIsPending(b[1..], stack[..|stack| - 1]);
      words := [Empty] + ws;
      assert words[1..] == ws;
      assert b == "" + [b[0]] + b[1..];
    }
  }

  /** Splitting succeeds exactly on the texts whose brackets form a balanced word. */
  lemma {:induction false} SplitsExactlyBalanced(s: string, d: char)
    ensures Split(s, d).Some? <==> Balanced(s)
  {
    SlicesReadBrackets(s, "", d);
    if Accepts(Brackets(s), "") {
      var words := AcceptedIsPending(Brackets(s), "");
      assert Yield(words[0]) == Brackets(s);
    }
    if Balanced(s) {
      var w: Word :| Yield(w) == Brackets(s);
      WordKeepsStack(w, "", "");
      assert Yield(w) + "" == Yield(w);
    }
  }

  // ---------------------------------------------------------------------------
  // Nothing is lost, and every slice is whole

  function Join(xs: seq<string>, d: char): string {
    if xs == [] then "" else if |xs| == 1 then xs[0] else xs[0] + [d] + Join(xs[1..], d)
  }

  /** Read before `x`, the tokens of `t` end with `t`, cut nothing and empty the stack. */
  predicate Whole(t: string, x: string, stack: string, d: char)
    decreases |t|
  {
    if t == "" then stack == ""
    else
      var n := TokenLength(t + x);
      n <= |t| &&
      match Step(t[..n], stack, d)
      case Fail => false
      case Cut => false
      case Keep(stack') => Whole(t[n..], x, stack', d)
  }

  /** What follows the first slice: nothing, or the delimiter and the other slices. */
  ghost predicate Follows(x: string, xs: seq<string>, d: char)
    requires xs != []
  {
    if |xs| == 1 then x == ""
    else x != "" && x[0] == d && x[1..] == Join(xs[1..], d) && Slices(x[1..], "", d) == Some(xs[1..])
  }

  lemma JoinPrepend(token: string, xs: seq<string>, d: char)
    requires xs != []
    ensures Join([token + xs[0]] + xs[1..], d) == token + Join(xs, d)
  {
    var ys := [token + xs[0]] + xs[1..];
    assert ys[1..] == xs[1..];
    if |xs| > 1 {
      assert (token + xs[0]) + [d] + Join(xs[1..], d) == token + (xs[0] + [d] + Join(xs[1..], d));
    }
  }

  /** The untrimmed slices, interleaved with the delimiter, are the text. */
  lemma {:induction false} SlicesRebuild(s: string, stack: string, d: char)
    requires Slices(s, stack, d).Some?
    ensures Join(Slices(s, stack, d).value, d) == s
    decreases |s|
  {
    if s != "" {
      var n := TokenLength(s);
      assert s == s[..n] + s[n..];
      match Step(s[..n], stack, d) {
        case Cut =>
          SlicesRebuild(s[n..], "", d);
          var ys := Slices(s[n..], "", d).value;
          assert ([""] + ys)[1..] == ys;
        case Keep(stack') =>
          SlicesRebuild(s[n..], stack', d);
          JoinPrepend(s[..n], Slices(s[n..], stack', d).value, d);
      }
    }
  }

  lemma WholePrepend(s: string, n: nat, t: string, x: string, stack: string, d: char)
    requires s != "" && n == TokenLength(s) && s[n..] == t + x
    requires Step(s[..n], stack, d).Keep? && Whole(t, x, Step(s[..n], stack, d).stack, d)
    ensures Whole(s[..n] + t, x, stack, d) && s == (s[..n] + t) + x
  {
    var u := s[..n] + t;
    assert u + x == s && u[n..] == t && u[..n] == s[..n];
  }

  lemma {:induction false} FirstSlice(s: string, stack: string, d: char) returns (x: string)
    requires Slices(s, stack, d).Some?
    ensures var xs := Slices(s, stack, d).value;
            s == xs[0] + x && Follows(x, xs, d) && Whole(xs[0], x, stack, d)
    decreases |s|
  {
    if s == "" {
      x := "";
    } else {
      var n := TokenLength(s);
      match Step(s[..n], stack, d) {
        case Cut =>
          x := s;
          SlicesRebuild(s[n..], "", d);
          var ys := Slices(s[n..], "", d).value;
          assert ([""] + ys)[1..] == ys && "" + s == s;
        case Keep(stack') =>
          x := FirstSlice(s[n..], stack', d);
          var ys := Slices(s[n..], stack', d).value;
          assert ([s[..n] + ys[0]] + ys[1..])[1..] == ys[1..];
          WholePrepend(s, n, ys[0], x, stack, d);
      }
    }
  }
}
