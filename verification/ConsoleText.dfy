/** One bounded line from any diagnostic text, and its Markdown table cell. */
module ConsoleText {
  import opened Options
  import opened Text
  import opened WordSplit

  const ESC := '\U{1b}'
  const BEL := '\U{7}'
  const STRING_END := '\U{9c}'
  const OSC := '\U{9d}'
  const CSI := '\U{9b}'

  // ---------------------------------------------------------------------------
  // Terminal commands

  predicate InBelled(c: char) { c != BEL && c != ESC && c != STRING_END }
  predicate InString(c: char) { c != ESC && c != STRING_END }
  predicate IsParameter(c: char) { '0' <= c <= '?' }
  predicate IsIntermediate(c: char) { ' ' <= c <= '/' }
  predicate IsFinal(c: char) { '@' <= c <= '~' }

  /** The first position from `i` on that is not in the class. */
  function Span(s: string, i: nat, p: char -> bool): (k: nat)
    requires i <= |s|
    ensures i <= k <= |s| && (k < |s| ==> !p(s[k])) && forall j :: i <= j < k ==> p(s[j])
    decreases |s| - i
  {
    if i == |s| || !p(s[i]) then i else Span(s, i + 1, p)
  }

  /** Where a control string that begins at `i` ends: at its terminator, or at the end of the
      text. A stray escape character leaves it without an end. */
  function StringEnd(s: string, i: nat, p: char -> bool): (r: Option<nat>)
    requires i <= |s|
    ensures r.Some? ==> i <= r.value <= |s|
  {
    var k := Span(s, i, p);
    if k == |s| then Some(k)
    else if s[k] == BEL || s[k] == STRING_END then Some(k + 1)
    else if s[k] == ESC && k + 1 < |s| && s[k + 1] == '\\' then Some(k + 2)
    else None
  }

  /** Intermediate characters from `i` on and a final one. */
  function FinalEnd(s: string, i: nat): (r: Option<nat>)
    requires i <= |s|
    ensures r.Some? ==> i <= r.value <= |s|
  {
    var k := Span(s, i, IsIntermediate);
    if k < |s| && IsFinal(s[k]) then Some(k + 1) else None
  }

  /** The introducer, one character or the escape character and another. */
  function Intro(s: string, seven: string, eight: string): (n: nat)
    ensures n <= |s|
  {
    if |s| >= 2 && s[0] == ESC && s[1] in seven then 2 else if s != "" && s[0] in eight then 1 else 0
  }

  /** The length of the command the text begins with; the alternatives are tried in order. */
  function Command(s: string): (r: Option<nat>)
    requires s != ""
    ensures r.Some? ==> 0 < r.value <= |s|
  {
    var a, b, c := Intro(s, "]", [OSC]), Intro(s, "P^_X", "\U{90}\U{98}\U{9e}\U{9f}"), Intro(s, "[", [CSI]);
    if a > 0 && StringEnd(s, a, InBelled).Some? then StringEnd(s, a, InBelled)
    else if b > 0 && StringEnd(s, b, InString).Some? then StringEnd(s, b, InString)
    else if c > 0 && FinalEnd(s, Span(s, c, IsParameter)).Some? then FinalEnd(s, Span(s, c, IsParameter))
    else if s[0] == ESC then FinalEnd(s, 1)
    else None
  }

  function Uncommanded(s: string): string
    decreases |s|
  {
    if s == "" then ""
    else match Command(s)
         case Some(n) => Uncommanded(s[n..])
         case None => [s[0]] + Uncommanded(s[1..])
  }

  // ---------------------------------------------------------------------------
  // The line

  /** Whitespace as blanks, without the characters of Unicode's other categories. */
  function Visible(s: string, other: char -> bool): string {
    if s == "" then ""
    else (if IsSpace(s[0]) then " " else if other(s[0]) then "" else [s[0]]) + Visible(s[1..], other)
  }

  function Clean(t: string, other: char -> bool): string { Join(Words(Visible(Uncommanded(t), other))) }

  /** The slice up to `n`, from the end if negative. */
  function Head(s: string, n: int): string
    requires n <= |s|
  {
    if n >= 0 then s[..n] else if |s| + n >= 0 then s[..|s| + n] else ""
  }

  function Cut(s: string, limit: int): string {
    if |s| <= limit then s else Head(s, limit - 3) + "..."
  }

  function SafeText(t: string, limit: int, other: char -> bool): string { Cut(Clean(t, other), limit) }

  predicate IsControl(c: char) { c < ' ' || '\U{7f}' <= c <= '\U{9f}' }

  /** The part of the Unicode categories that matters: control characters are in one of the
      other categories, the full stop is not. */
  ghost predicate Categories(other: char -> bool) {
    (forall c :: IsControl(c) ==> other(c)) && !other('.')
  }

  predicate Shown(s: string, other: char -> bool) {
    forall k :: 0 <= k < |s| ==> s[k] == ' ' || (!IsSpace(s[k]) && !other(s[k]))
  }

  lemma {:induction false} VisibleIsShown(s: string, other: char -> bool)
    ensures Shown(Visible(s, other), other)
  {
    if s != "" {
      VisibleIsShown(s[1..], other);
      var head := if IsSpace(s[0]) then " " else if other(s[0]) then "" else [s[0]];
      assert Visible(s, other) == head + Visible(s[1..], other);
    }
  }

  lemma {:induction false} ShownIsVisible(s: string, other: char -> bool)
    requires Shown(s, other)
    ensures Visible(s, other) == s
  {
    if s != "" {
      ShownIsVisible(s[1..], other);
      assert s == [s[0]] + s[1..];
      assert " " == [' '];
    }
  }

  lemma {:induction false} WordsAreShown(s: string, other: char -> bool)
    requires Shown(s, other)
    ensures forall i :: 0 <= i < |Words(s)| ==> Shown(Words(s)[i], other)
    decreases |s|
  {
    if s != "" {
      if IsSpace(s[0]) {
        WordsAreShown(s[1..], other);
      } else {
        WordsAreShown(s[Run(s)..], other);
      }
    }
  }

  lemma {:induction false} JoinIsShown(ws: seq<string>, other: char -> bool)
    requires forall i :: 0 <= i < |ws| ==> Shown(ws[i], other)
    ensures Shown(Join(ws), other)
  {
    if |ws| > 1 {
      JoinIsShown(ws[1..], other);
    }
  }

  lemma CleanIsShown(t: string, other: char -> bool)
    ensures Shown(Clean(t, other), other) && Spaced(Clean(t, other))
  {
    hide Shown, Spaced;
    var v := Visible(Uncommanded(t), other);
    VisibleIsShown(Uncommanded(t), other);
    WordsAreShown(v, other);
    JoinIsShown(Words(v), other);
    JoinIsCollapsed(Words(v));
  }

  lemma CutIsShown(s: string, limit: int, other: char -> bool)
    requires Shown(s, other) && Spaced(s) && !other('.')
    ensures Shown(Cut(s, limit), other) && Spaced(Cut(s, limit))
  {
    if |s| > limit {
      var head := Head(s, limit - 3);
      var n := |head|;
      assert head == s[..n];
      var r := head + "...";
      assert Cut(s, limit) == r;
      forall k | 0 <= k < |r| ensures r[k] == if k < n then s[k] else '.' {
      }
      assert !IsSpace('.');
    }
  }

  lemma {:induction false} NothingToRemove(s: string)
    requires forall k :: 0 <= k < |s| ==> !IsControl(s[k])
    ensures Uncommanded(s) == s
  {
    if s != "" {
      assert Intro(s, "]", [OSC]) == 0 && Intro(s, "P^_X", "\U{90}\U{98}\U{9e}\U{9f}") == 0
             && Intro(s, "[", [CSI]) == 0 by {
        assert !IsControl(s[0]);
      }
      NothingToRemove(s[1..]);
      assert s == [s[0]] + s[1..];
    }
  }

  /** Each character is shown on its own: whitespace as a blank, a character of the other categories
      not at all, any other as it is. */
  lemma {:induction false} VisibleByCharacter(a: string, b: string, c: char, other: char -> bool)
    ensures Visible("", other) == "" && Visible(a + b, other) == Visible(a, other) + Visible(b, other)
    ensures Visible([c], other) == if c as int in SPACES then " " else if other(c) then "" else [c]
  {
    SpaceByCode(c);
    assert [c][1..] == "" && forall t: string :: t + "" == t;
    if a == "" {
      assert a + b == b;
    } else {
      assert (a + b)[1..] == a[1..] + b;
      VisibleByCharacter(a[1..], b, c, other);
    }
  }

  /** The line holds no control character, no line end and no other whitespace than single
      blanks between words. */
  lemma {:induction false} OneLine(t: string, limit: int, other: char -> bool)
    requires Categories(other)
    ensures var r := SafeText(t, limit, other);
            && Spaced(r)
            && forall k :: 0 <= k < |r| ==>
                 r[k] == ' ' || (r[k] > ' ' && !('\U{7f}' <= r[k] <= '\U{9f}') && !other(r[k]))
  {
    CleanIsShown(t, other);
    CutIsShown(Clean(t, other), limit, other);
  }

  /** A text that fits is shown whole. Of a longer one the beginning is shown, with three dots in place
      of what does not fit beside them; for limits below three the count is from the end. */
  lemma {:induction false} LongTextIsCut(t: string, limit: int, other: char -> bool) returns (n: nat)
    ensures n <= |Clean(t, other)|
    ensures SafeText(t, limit, other) == Clean(t, other)[..n] + (if |Clean(t, other)| <= limit then "" else "...")
    ensures |Clean(t, other)| <= limit ==> n == |Clean(t, other)|
    ensures |Clean(t, other)| > limit >= 3 ==> n + 3 == limit
    ensures |Clean(t, other)| > limit && limit < 3 ==> n == if |Clean(t, other)| + limit > 3
                                                            then |Clean(t, other)| + limit - 3 else 0
  {
    var s := Clean(t, other);
    hide Clean;
    n := if |s| <= limit then |s|
         else if limit >= 3 then limit - 3
         else if |s| + limit > 3 then |s| + limit - 3 else 0;
    assert s[..|s|] + "" == s;
  }

  /** It is no longer than the limit exactly if the limit leaves room for the dots or nothing
      is cut. */
  lemma {:induction false} LengthIsBounded(t: string, limit: int, other: char -> bool)
    ensures |SafeText(t, limit, other)| <= limit <==> limit >= 3 || |Clean(t, other)| <= limit
  {
  }

  lemma CleanKeeps(r: string, other: char -> bool)
    requires Categories(other) && Shown(r, other) && Spaced(r)
    ensures Clean(r, other) == r
  {
    NothingToRemove(r);
    ShownIsVisible(r, other);
    CollapsedIsFixed(r);
  }

  predicate Stable(length: nat, limit: int) {
    limit >= 3 || length <= limit || limit == 0 || (limit < 0 && length <= 3 - limit)
  }

  lemma CutTwice(s: string, limit: int)
    ensures Cut(Cut(s, limit), limit) == Cut(s, limit) <==> Stable(|s|, limit)
  {
    if |s| > limit && limit < 3 {
      var p := Head(s, limit - 3);
      var r := p + "...";
      assert Cut(s, limit) == r;
      assert |Cut(r, limit)| == |Head(r, limit - 3)| + 3;
      if limit == 0 {
        assert Head(r, -3) == p;
      }
    }
  }

  /** Applying it again changes nothing, for every limit of at least three; below that exactly
      in the listed cases. */
  lemma {:induction false} SafeTextIsIdempotent(t: string, limit: int, other: char -> bool)
    requires Categories(other)
    ensures SafeText(SafeText(t, limit, other), limit, other) == SafeText(t, limit, other) <==>
              Stable(|Clean(t, other)|, limit)
  {
    hide Categories, Shown, Spaced, Stable, Cut;
    CleanIsShown(t, other);
    FullStop(other);
    CutIsShown(Clean(t, other), limit, other);
    CleanKeeps(SafeText(t, limit, other), other);
    CutTwice(Clean(t, other), limit);
  }

  lemma FullStop(other: char -> bool)
    requires Categories(other)
    ensures !other('.')
  {
  }

  /** Below three there are such texts: three letters at a limit of two get longer each time. */
  lemma {:induction false} SomeShortLimitFails(other: char -> bool)
    requires Categories(other) && !other('a')
    ensures |SafeText("aaa", 2, other)| > 2
    ensures SafeText(SafeText("aaa", 2, other), 2, other) != SafeText("aaa", 2, other)
  {
    CleanKeeps("aaa", other);
    LengthIsBounded("aaa", 2, other);
    SafeTextIsIdempotent("aaa", 2, other);
  }
}
