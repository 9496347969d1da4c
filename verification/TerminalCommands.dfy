/** A grammar of terminal commands: text interleaved with complete commands loses exactly these. */
module TerminalCommands {
  import opened Options
  import opened Text
  import opened WordSplit
  import opened ConsoleText

  datatype Terminator = Bell | EscBackslash | EightBit

  datatype Piece =
    | Plain(c: char)
    | Titled(intro: string, payload: string, end: Terminator)
    | Str(intro: string, payload: string, end: Terminator)
    | Control(intro: string, params: string, inters: string, final: char)
    | Short(inters: string, final: char)

  predicate AllIn(s: string, p: char -> bool) { forall k :: 0 <= k < |s| ==> p(s[k]) }

  predicate NoneOf(s: string, chars: string) { forall k :: 0 <= k < |s| ==> s[k] !in chars }

  predicate Between(s: string, low: char, high: char) { forall k :: 0 <= k < |s| ==> low <= s[k] <= high }

  lemma ClassesAre(s: string)
    ensures NoneOf(s, "\U{7}\U{1b}\U{9c}") <==> AllIn(s, InBelled)
    ensures NoneOf(s, "\U{1b}\U{9c}") <==> AllIn(s, InString)
    ensures Between(s, '0', '?') <==> AllIn(s, IsParameter)
    ensures Between(s, ' ', '/') <==> AllIn(s, IsIntermediate)
    ensures |s| == 1 ==> (Between(s, '@', '~') <==> IsFinal(s[0]))
  {
  }

  /** `seven` follows the escape character, `eight` stands alone. */
  predicate IntroOk(intro: string, seven: string, eight: string) {
    || (|intro| == 2 && intro[0] == '\U{1b}' && intro[1] in seven)
    || (|intro| == 1 && intro[0] in eight)
  }

  predicate PieceOk(p: Piece) {
    match p
    case Plain(c) => c !in "\U{1b}\U{90}\U{98}\U{9b}\U{9d}\U{9e}\U{9f}"
    case Titled(intro, payload, _) => IntroOk(intro, "]", "\U{9d}") && NoneOf(payload, "\U{7}\U{1b}\U{9c}")
    case Str(intro, payload, end) =>
      IntroOk(intro, "P^_X", "\U{90}\U{98}\U{9e}\U{9f}") && NoneOf(payload, "\U{1b}\U{9c}") && !end.Bell?
    case Control(intro, params, inters, final) =>
      && IntroOk(intro, "[", "\U{9b}") && Between(params, '0', '?') && Between(inters, ' ', '/')
      && '@' <= final <= '~'
    case Short(inters, final) =>
      Between(inters, ' ', '/') && '@' <= final <= '~' && (inters == "" ==> final !in "]P^_X[")
  }

  function End(t: Terminator): string {
    match t case Bell => "\U{7}" case EscBackslash => "\U{1b}\\" case EightBit => "\U{9c}"
  }

  function Render(p: Piece): string {
    match p
    case Plain(c) => [c]
    case Titled(intro, payload, end) => intro + (payload + End(end))
    case Str(intro, payload, end) => intro + (payload + End(end))
    case Control(intro, params, inters, final) => intro + (params + (inters + [final]))
    case Short(inters, final) => "\U{1b}" + (inters + [final])
  }

  function RenderAll(ps: seq<Piece>): string { if ps == [] then "" else Render(ps[0]) + RenderAll(ps[1..]) }

  function PlainOf(ps: seq<Piece>): string {
    if ps == [] then "" else (if ps[0].Plain? then [ps[0].c] else "") + PlainOf(ps[1..])
  }

  lemma {:induction false} SpanOf(s: string, i: nat, n: nat, p: char -> bool)
    requires i + n <= |s| && (forall k :: i <= k < i + n ==> p(s[k])) && (i + n < |s| ==> !p(s[i + n]))
    ensures Span(s, i, p) == i + n
    decreases n
  {
    if n > 0 {
      SpanOf(s, i + 1, n - 1, p);
    }
  }

  lemma StringEndOf(intro: string, payload: string, end: Terminator, rest: string, p: char -> bool)
    requires AllIn(payload, p) && !p(End(end)[0])
    ensures StringEnd(intro + (payload + End(end)) + rest, |intro|, p) == Some(|intro| + |payload| + |End(end)|)
  {
    var s := intro + (payload + End(end)) + rest;
    var m := |intro| + |payload|;
    assert forall k :: |intro| <= k < m ==> s[k] == payload[k - |intro|];
    assert s[m] == End(end)[0];
    SpanOf(s, |intro|, |payload|, p);
    if end.EscBackslash? { assert s[m + 1] == End(end)[1]; }
  }

  lemma FinalEndOf(s: string, i: nat, inters: string, final: char)
    requires AllIn(inters, IsIntermediate) && IsFinal(final)
    requires i + |inters| < |s| && s[i..i + |inters| + 1] == inters + [final]
    ensures FinalEnd(s, i) == Some(i + |inters| + 1)
  {
    forall k | i <= k < i + |inters| + 1 ensures s[k] == (inters + [final])[k - i] {
      assert s[k] == s[i..i + |inters| + 1][k - i];
    }
    SpanOf(s, i, |inters|, IsIntermediate);
  }

  lemma IntroOf(intro: string, seven: string, eight: string, tail: string)
    requires IntroOk(intro, seven, eight) && ESC !in eight
    ensures Intro(intro + tail, seven, eight) == |intro|
  {
    assert (intro + tail)[0] == intro[0];
    if |intro| == 2 { assert (intro + tail)[1] == intro[1]; }
  }

  /** The classes of introducers exclude each other. */
  lemma NoIntro(intro: string, tail: string, seven: string, eight: string, seven': string, eight': string)
    requires IntroOk(intro, seven, eight)
    requires (forall c :: c in seven ==> c !in seven') && (forall c :: c in eight ==> c !in eight') && ESC !in eight
    requires ESC !in eight'
    ensures Intro(intro + tail, seven', eight') == 0
  {
    assert (intro + tail)[0] == intro[0];
    if |intro| == 2 {
      assert (intro + tail)[1] == intro[1];
    } else {
      assert intro[0] != ESC;
    }
  }

  lemma TitledIsCommand(p: Piece, rest: string)
    requires p.Titled? && PieceOk(p)
    ensures Command(Render(p) + rest) == Some(|Render(p)|)
  {
    hide StringEnd, FinalEnd, Span, Intro;
    ClassesAre(p.payload);
    var tail := p.payload + End(p.end) + rest;
    assert Render(p) + rest == p.intro + tail;
    IntroOf(p.intro, "]", [OSC], tail);
    StringEndOf(p.intro, p.payload, p.end, rest, InBelled);
  }

  lemma StrIsCommand(p: Piece, rest: string)
    requires p.Str? && PieceOk(p)
    ensures Command(Render(p) + rest) == Some(|Render(p)|)
  {
    hide StringEnd, FinalEnd, Span, Intro;
    ClassesAre(p.payload);
    var tail := p.payload + End(p.end) + rest;
    assert Render(p) + rest == p.intro + tail;
    IntroOf(p.intro, "P^_X", "\U{90}\U{98}\U{9e}\U{9f}", tail);
    NoIntro(p.intro, tail, "P^_X", "\U{90}\U{98}\U{9e}\U{9f}", "]", [OSC]);
    StringEndOf(p.intro, p.payload, p.end, rest, InString);
  }

  lemma ControlIsCommand(p: Piece, rest: string)
    requires p.Control? && PieceOk(p)
    ensures Command(Render(p) + rest) == Some(|Render(p)|)
  {
    hide StringEnd, FinalEnd, Span, Intro;
    ClassesAre(p.params);
    ClassesAre(p.inters);
    var tail := p.params + (p.inters + [p.final]) + rest;
    var s, m := p.intro + tail, |p.intro| + |p.params|;
    assert Render(p) + rest == s;
    IntroOf(p.intro, "[", [CSI], tail);
    NoIntro(p.intro, tail, "[", [CSI], "]", [OSC]);
    NoIntro(p.intro, tail, "[", [CSI], "P^_X", "\U{90}\U{98}\U{9e}\U{9f}");
    assert forall k :: |p.intro| <= k < m ==> s[k] == p.params[k - |p.intro|];
    assert s[m..m + |p.inters| + 1] == p.inters + [p.final];
    assert s[m] == (p.inters + [p.final])[0];
    SpanOf(s, |p.intro|, |p.params|, IsParameter);
    FinalEndOf(s, m, p.inters, p.final);
  }

  lemma ShortIsCommand(p: Piece, rest: string)
    requires p.Short? && PieceOk(p)
    ensures Command(Render(p) + rest) == Some(|Render(p)|)
  {
    hide StringEnd, FinalEnd, Span;
    ClassesAre(p.inters);
    var s := Render(p) + rest;
    assert s[1..|p.inters| + 2] == p.inters + [p.final];
    assert s[0] == ESC && s[1] == (p.inters + [p.final])[0];
    assert IsIntermediate(s[1]) || s[1] == p.final;
    FinalEndOf(s, 1, p.inters, p.final);
  }

  /** A complete command is removed as a whole, whatever follows. */
  lemma CommandVanishes(p: Piece, rest: string)
    requires !p.Plain? && PieceOk(p)
    ensures Uncommanded(Render(p) + rest) == Uncommanded(rest)
  {
    hide Command;
    match p {
      case Titled(_, _, _) => TitledIsCommand(p, rest);
      case Str(_, _, _) => StrIsCommand(p, rest);
      case Control(_, _, _, _) => ControlIsCommand(p, rest);
      case Short(_, _) => ShortIsCommand(p, rest);
    }
    assert (Render(p) + rest)[|Render(p)|..] == rest;
  }

  lemma PlainStays(c: char, rest: string)
    requires PieceOk(Plain(c))
    ensures Uncommanded([c] + rest) == [c] + Uncommanded(rest)
  {
    hide StringEnd, FinalEnd, Span;
    assert ([c] + rest)[1..] == rest;
  }

  /** Text interleaved with complete commands becomes the text. */
  lemma {:induction false} OnlyTextRemains(ps: seq<Piece>, rest: string)
    requires forall i :: 0 <= i < |ps| ==> PieceOk(ps[i])
    ensures Uncommanded(RenderAll(ps) + rest) == PlainOf(ps) + Uncommanded(rest)
  {
    hide Uncommanded, PieceOk, Render;
    if ps == [] {
      assert "" + rest == rest && "" + Uncommanded(rest) == Uncommanded(rest);
    } else {
      var tail := RenderAll(ps[1..]) + rest;
      Regroup(Render(ps[0]), RenderAll(ps[1..]), rest);
      OnlyTextRemains(ps[1..], rest);
      if ps[0].Plain? {
        PlainStays(ps[0].c, tail);
        PlainRendered(ps[0]);
        Regroup([ps[0].c], PlainOf(ps[1..]), Uncommanded(rest));
      } else {
        CommandVanishes(ps[0], tail);
        assert "" + PlainOf(ps[1..]) == PlainOf(ps[1..]);
      }
    }
  }

  lemma Regroup(a: string, b: string, c: string)
    ensures (a + b) + c == a + (b + c)
  {
  }

  lemma PlainRendered(p: Piece)
    requires p.Plain?
    ensures Render(p) == [p.c]
  {
  }

  /** A control string that is never ended takes the rest of the text with it. */
  lemma {:induction false} UnendedStringTakesRest(ps: seq<Piece>, intro: string, payload: string)
    requires forall i :: 0 <= i < |ps| ==> PieceOk(ps[i])
    requires || (IntroOk(intro, "]", "\U{9d}") && NoneOf(payload, "\U{7}\U{1b}\U{9c}"))
             || (IntroOk(intro, "P^_X", "\U{90}\U{98}\U{9e}\U{9f}") && NoneOf(payload, "\U{1b}\U{9c}"))
    ensures Uncommanded(RenderAll(ps) + (intro + payload)) == PlainOf(ps)
  {
    hide PieceOk, FinalEnd;
    ClassesAre(payload);
    var s := intro + payload;
    OnlyTextRemains(ps, s);
    assert forall k :: |intro| <= k < |s| ==> s[k] == payload[k - |intro|];
    if IntroOk(intro, "]", "\U{9d}") && AllIn(payload, InBelled) {
      IntroOf(intro, "]", [OSC], payload);
      SpanOf(s, |intro|, |payload|, InBelled);
    } else {
      IntroOf(intro, "P^_X", "\U{90}\U{98}\U{9e}\U{9f}", payload);
      NoIntro(intro, payload, "P^_X", "\U{90}\U{98}\U{9e}\U{9f}", "]", [OSC]);
      SpanOf(s, |intro|, |payload|, InString);
    }
    assert Command(s) == Some(|s|);
    assert s[|s|..] == "" && PlainOf(ps) + "" == PlainOf(ps);
  }

  // ---------------------------------------------------------------------------
  // The words of the line

  lemma {:induction false} VisibleKeepsPlaces(s: string, other: char -> bool)
    requires forall k :: 0 <= k < |s| ==> IsSpace(s[k]) || !other(s[k])
    ensures |Visible(s, other)| == |s|
    ensures forall k :: 0 <= k < |s| ==> Visible(s, other)[k] == if IsSpace(s[k]) then ' ' else s[k]
  {
    if s != "" {
      VisibleKeepsPlaces(s[1..], other);
      var head := if IsSpace(s[0]) then " " else [s[0]];
      assert Visible(s, other) == head + Visible(s[1..], other);
    }
  }

  lemma {:induction false} SameRun(s: string, t: string)
    requires |s| == |t| && forall k :: 0 <= k < |s| ==> t[k] == if IsSpace(s[k]) then ' ' else s[k]
    ensures Run(t) == Run(s) && t[..Run(t)] == s[..Run(s)]
  {
    if s != "" && !IsSpace(s[0]) {
      SameRun(s[1..], t[1..]);
    }
  }

  lemma {:induction false} SameWords(s: string, t: string)
    requires |s| == |t| && forall k :: 0 <= k < |s| ==> t[k] == if IsSpace(s[k]) then ' ' else s[k]
    ensures Words(t) == Words(s)
    decreases |s|
  {
    if s != "" {
      if IsSpace(s[0]) {
        SameWords(s[1..], t[1..]);
      } else {
        SameRun(s, t);
        SameWords(s[Run(s)..], t[Run(t)..]);
      }
    }
  }

  /** The cleaned line has exactly the words of the text between the commands. */
  lemma {:induction false} NoWordIsLost(ps: seq<Piece>, other: char -> bool)
    requires forall i :: 0 <= i < |ps| ==> PieceOk(ps[i])
    requires forall k :: 0 <= k < |PlainOf(ps)| ==> IsSpace(PlainOf(ps)[k]) || !other(PlainOf(ps)[k])
    ensures Words(Clean(RenderAll(ps), other)) == Words(PlainOf(ps))
  {
    hide PieceOk, Visible, PlainOf, RenderAll, Words;
    OnlyTextRemains(ps, "");
    assert RenderAll(ps) + "" == RenderAll(ps);
    NothingLeft();
    assert PlainOf(ps) + "" == PlainOf(ps);
    VisibleKeepsPlaces(PlainOf(ps), other);
    SameWords(PlainOf(ps), Visible(PlainOf(ps), other));
    WordsOfJoin(Words(Visible(PlainOf(ps), other)));
  }

  lemma NothingLeft()
    ensures Uncommanded("") == ""
  {
  }
}
