/** Splitting C text at top-level delimiters with a bracket stack. */
module Splitter {
  import opened Options
  import opened Lexer
  import opened Text

  predicate IsOpen(c: char) { c == '(' || c == '{' || c == '[' }

  predicate IsClose(c: char) { c == ')' || c == '}' || c == ']' }

  function Closer(c: char): char
    requires IsOpen(c)
  {
    if c == '(' then ')' else if c == '{' then '}' else ']'
  }

  /** A token is a closed literal or else a single character. */
  function TokenLength(s: string): (n: nat)
    requires s != ""
    ensures 1 <= n <= |s|
  {
    match LiteralLength(s) case Some(n) => n case None => 1
  }

  datatype Action = Fail | Cut | Keep(stack: string)

  function Step(token: string, stack: string, d: char): Action {
    if |token| != 1 then Keep(stack)
    else if IsOpen(token[0]) then Keep(stack + [Closer(token[0])])
    else if IsClose(token[0]) then
      if stack == "" || stack[|stack| - 1] != token[0] then Fail else Keep(stack[..|stack| - 1])
    else if token[0] == d && stack == "" then Cut
    else Keep(stack)
  }

  function Prepend(token: string, r: Option<seq<string>>): (r': Option<seq<string>>)
    requires r.Some? ==> r.value != []
  {
    match r case None => None case Some(xs) => Some([token + xs[0]] + xs[1..])
  }

  function Push(x: string, r: Option<seq<string>>): Option<seq<string>> {
    match r case None => None case Some(xs) => Some([x] + xs)
  }

  /** The untrimmed slices of `s`, read from the given bracket stack. */
  function Slices(s: string, stack: string, d: char): (r: Option<seq<string>>)
    ensures r.Some? ==> r.value != []
    decreases |s|
  {
    if s == "" then if stack == "" then Some([""]) else None
    else
      var n := TokenLength(s);
      match Step(s[..n], stack, d)
      case Fail => None
      case Cut => Push("", Slices(s[n..], "", d))
      case Keep(stack') => Prepend(s[..n], Slices(s[n..], stack', d))
  }

  function Trims(xs: seq<string>): seq<string> {
    seq(|xs|, k requires 0 <= k < |xs| => Strip(xs[k]))
  }

  function NonEmpty(parts: seq<string>): seq<string> {
    if parts == [] then [] else (if parts[0] == "" then [] else [parts[0]]) + NonEmpty(parts[1..])
  }

  /** The trimmed, non-empty slices. */
  function Fields(xs: seq<string>): seq<string> {
    NonEmpty(Trims(xs))
  }

  function Split(s: string, d: char): Option<seq<string>> {
    match Slices(s, "", d) case None => None case Some(xs) => Some(Fields(xs))
  }

  // ---------------------------------------------------------------------------
  // The loop

  function Resume(finished: seq<string>, current: string, r: Option<seq<string>>): Option<seq<string>>
    requires r.Some? ==> r.value != []
  {
    match r case None => None case Some(xs) => Some(finished + [current + xs[0]] + xs[1..])
  }

  lemma ResumeCut(finished: seq<string>, current: string, r: Option<seq<string>>)
    requires r.Some? ==> r.value != []
    ensures Resume(finished, current, Push("", r)) == Resume(finished + [current], "", r)
  {
    if r.Some? {
      var xs := r.value;
      assert current + "" == current && "" + xs[0] == xs[0];
      assert ([""] + xs)[1..] == xs == [xs[0]] + xs[1..];
      assert finished + [current] + xs == finished + [current] + [xs[0]] + xs[1..];
    }
  }

  lemma ResumeKeep(finished: seq<string>, current: string, token: string, r: Option<seq<string>>)
    requires r.Some? ==> r.value != []
    ensures Resume(finished, current, Prepend(token, r)) == Resume(finished, current + token, r)
  {
    if r.Some? {
      var x := token + r.value[0];
      assert ([x] + r.value[1..])[1..] == r.value[1..];
      assert current + x == (current + token) + r.value[0];
    }
  }

  /** The loop has `raw` behind it, `text[start..pos]` in hand and the rest ahead. */
  ghost predicate Reading(text: string, d: char, raw: seq<string>, start: nat, pos: nat, stack: string) {
    && start <= pos <= |text|
    && Slices(text, "", d) == Resume(raw, text[start..pos], Slices(text[pos..], stack, d))
  }

  lemma ReadingStarts(text: string, d: char)
    ensures Reading(text, d, [], 0, 0, "")
  {
    var r := Slices(text, "", d);
    assert text[0..] == text && text[0..0] == "";
    if r.Some? {
      assert "" + r.value[0] == r.value[0];
      assert [] + [r.value[0]] + r.value[1..] == r.value;
    }
  }

  lemma ReadingFails(text: string, d: char, raw: seq<string>, start: nat, pos: nat, stack: string)
    requires Reading(text, d, raw, start, pos, stack) && pos < |text|
    requires Step(text[pos..pos + TokenLength(text[pos..])], stack, d) == Fail
    ensures Split(text, d) == None
  {
    var n := TokenLength(text[pos..]);
    assert text[pos..][..n] == text[pos..pos + n];
  }

  lemma ReadingCuts(text: string, d: char, raw: seq<string>, start: nat, pos: nat, n: nat)
    requires Reading(text, d, raw, start, pos, "") && pos < |text| && n == TokenLength(text[pos..])
    requires Step(text[pos..pos + n], "", d) == Cut
    ensures Reading(text, d, raw + [text[start..pos]], pos + n, pos + n, "")
  {
    var s := text[pos..];
    assert s[..n] == text[pos..pos + n] && s[n..] == text[pos + n..];
    ResumeCut(raw, text[start..pos], Slices(s[n..], "", d));
    assert text[pos + n..pos + n] == "";
  }

  lemma ReadingKeeps(text: string, d: char, raw: seq<string>, start: nat, pos: nat, n: nat,
                     stack: string, stack': string)
    requires Reading(text, d, raw, start, pos, stack) && pos < |text| && n == TokenLength(text[pos..])
    requires Step(text[pos..pos + n], stack, d) == Keep(stack')
    ensures Reading(text, d, raw, start, pos + n, stack')
  {
    var s := text[pos..];
    assert s[..n] == text[pos..pos + n] && s[n..] == text[pos + n..];
    ResumeKeep(raw, text[start..pos], s[..n], Slices(s[n..], stack', d));
    assert text[start..pos] + s[..n] == text[start..pos + n];
  }

  lemma ReadingEnds(text: string, d: char, raw: seq<string>, start: nat, stack: string)
    requires Reading(text, d, raw, start, |text|, stack)
    ensures Split(text, d) == if stack == "" then Some(Fields(raw + [text[start..]])) else None
  {
    assert text[|text|..] == "" && text[start..|text|] + "" == text[start..];
    assert raw + [text[start..]] + [""][1..] == raw + [text[start..]];
  }

  lemma TrimsAppend(raw: seq<string>, x: string)
    ensures Trims(raw + [x]) == Trims(raw) + [Strip(x)]
  {
    forall k | 0 <= k < |raw| ensures (raw + [x])[k] == raw[k] {
    }
  }

  /** The splitting loop: `stack`, `start` and `parts` are updated token by token. */
  method SplitC(text: string, delimiter: char) returns (r: Option<seq<string>>)
    ensures r == Split(text, delimiter)
  {
    hide Slices, Resume;
    var stack := "";
    var start: nat := 0;
    var pos: nat := 0;
    var parts: seq<string> := [];
    ghost var raw: seq<string> := [];
    ReadingStarts(text, delimiter);
    while pos < |text|
      invariant Reading(text, delimiter, raw, start, pos, stack)
      invariant parts == Trims(raw)
    {
      var n := TokenLength(text[pos..]);
      var token := text[pos..pos + n];
      ghost var before := stack;
      if token == "(" || token == "{" || token == "[" {
        stack := stack + [Closer(token[0])];
        ReadingKeeps(text, delimiter, raw, start, pos, n, before, stack);
      } else if token == ")" || token == "}" || token == "]" {
        if stack == "" || stack[|stack| - 1] != token[0] {
          ReadingFails(text, delimiter, raw, start, pos, stack);
          return None;
        }
        stack := stack[..|stack| - 1];
        ReadingKeeps(text, delimiter, raw, start, pos, n, before, stack);
      } else if token == [delimiter] && stack == "" {
        ReadingCuts(text, delimiter, raw, start, pos, n);
        TrimsAppend(raw, text[start..pos]);
        parts := parts + [Strip(text[start..pos])];
        raw := raw + [text[start..pos]];
        start := pos + n;
      } else {
        ReadingKeeps(text, delimiter, raw, start, pos, n, stack, stack);
      }
      pos := pos + n;
    }
    ReadingEnds(text, delimiter, raw, start, stack);
    if stack != "" {
      return None;
    }
    TrimsAppend(raw, text[start..]);
    parts := parts + [Strip(text[start..])];
    return Some(NonEmpty(parts));
  }
}
