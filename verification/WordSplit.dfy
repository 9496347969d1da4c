/** Splitting at whitespace and joining with single blanks, as Python's split and join. */
module WordSplit {
  import opened Text

  predicate IsWord(w: string) { w != "" && forall k :: 0 <= k < |w| ==> !IsSpace(w[k]) }

  predicate AllWords(ws: seq<string>) { forall k :: 0 <= k < |ws| ==> IsWord(ws[k]) }

  /** The number of leading characters that are not whitespace. */
  function Run(s: string): (n: nat)
    ensures n <= |s| && (n < |s| ==> IsSpace(s[n])) && forall k :: 0 <= k < n ==> !IsSpace(s[k])
  {
    if s == "" || IsSpace(s[0]) then 0 else 1 + Run(s[1..])
  }

  function Words(s: string): (ws: seq<string>)
    ensures AllWords(ws)
    decreases |s|
  {
    if s == "" then []
    else if IsSpace(s[0]) then Words(s[1..])
    else [s[..Run(s)]] + Words(s[Run(s)..])
  }

  function Join(ws: seq<string>): string {
    if ws == [] then "" else if |ws| == 1 then ws[0] else ws[0] + " " + Join(ws[1..])
  }

  lemma {:induction false} RunOf(w: string, rest: string)
    requires IsWord(w) && (rest == "" || IsSpace(rest[0]))
    ensures Run(w + rest) == |w|
  {
    var s := w + rest;
    assert forall k :: 0 <= k < |w| ==> s[k] == w[k];
    assert rest != "" ==> s[|w|] == rest[0];
  }

  /** Splitting undoes joining. */
  lemma {:induction false} WordsOfJoin(ws: seq<string>)
    requires AllWords(ws)
    ensures Words(Join(ws)) == ws
  {
    if ws != [] {
      var rest := if |ws| == 1 then "" else " " + Join(ws[1..]);
      assert Join(ws) == ws[0] + rest;
      RunOf(ws[0], rest);
      assert (ws[0] + rest)[..|ws[0]|] == ws[0] && (ws[0] + rest)[|ws[0]|..] == rest;
      assert !IsSpace((ws[0] + rest)[0]);
      if |ws| > 1 {
        WordsOfJoin(ws[1..]);
        assert rest[1..] == Join(ws[1..]);
      }
      assert ws == [ws[0]] + ws[1..];
    }
  }

  /** Only ordinary blanks, none at an end and no two together. */
  predicate Spaced(s: string) {
    && (forall k :: 0 <= k < |s| && IsSpace(s[k]) ==> s[k] == ' ' && 0 < k < |s| - 1 && !IsSpace(s[k + 1]))
  }

  lemma {:induction false} JoinIsCollapsed(ws: seq<string>)
    requires AllWords(ws)
    ensures Spaced(Join(ws)) && (ws != [] ==> Join(ws) != "" && !IsSpace(Join(ws)[0]))
  {
    if |ws| > 1 {
      JoinIsCollapsed(ws[1..]);
      var rest := Join(ws[1..]);
      var s := Join(ws);
      assert s == ws[0] + " " + rest;
      forall k | 0 <= k < |s| && IsSpace(s[k]) ensures s[k] == ' ' && 0 < k < |s| - 1 && !IsSpace(s[k + 1]) {
        if k > |ws[0]| {
          assert s[k] == rest[k - |ws[0]| - 1];
        }
      }
    }
  }

  /** Collapsed text is what splitting and joining leave unchanged. */
  lemma {:induction false} CollapsedIsFixed(s: string)
    requires Spaced(s)
    ensures Join(Words(s)) == s
    decreases |s|
  {
    if s != "" {
      var n := Run(s);
      assert !IsSpace(s[0]) && n > 0;
      if n < |s| {
        var rest := s[n + 1..];
        assert s[n] == ' ' && rest != "" && !IsSpace(rest[0]);
        assert Spaced(rest) by {
          forall k | 0 <= k < |rest| && IsSpace(rest[k])
            ensures rest[k] == ' ' && 0 < k < |rest| - 1 && !IsSpace(rest[k + 1])
          {
            assert rest[k] == s[n + 1 + k];
          }
        }
        CollapsedIsFixed(rest);
        assert s[n..][1..] == rest;
        assert Words(s) == [s[..n]] + Words(rest);
        assert Words(rest) != [];
        assert s == s[..n] + " " + rest;
      } else {
        assert s[..n] == s && s[n..] == "";
      }
    }
  }

  /** A word without a blank is the join of nothing but itself. */
  lemma JoinedWord(ws: seq<string>, w: string)
    requires AllWords(ws) && IsWord(w)
    ensures Join(ws) == w <==> ws == [w]
  {
    if Join(ws) == w {
      WordsOfJoin(ws);
      WordsOfJoin([w]);
    }
  }
}
