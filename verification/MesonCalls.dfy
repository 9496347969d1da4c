/** The calls found in the text of a build file are those of its statements, and one more wherever
    a function name ends a statement and a parenthesis begins the next. */
module MesonCalls {
  import opened Options
  import opened Text
  import opened Splitter
  import opened SplitterLaws
  import opened SplitStability
  import opened MesonInputs
  import opened MesonText

  /** Function names. */
  predicate AreNames(names: set<string>) { forall name :: name in names ==> IsWordOf(name) }

  lemma CallNames()
    ensures AreNames(INSTALL) && AreNames(LIBRARY)
  {
  }

  /** The text ends with a function name, which begins at a word boundary. */
  predicate EndsIn(s: string, name: string, word: char -> bool) {
    |name| <= |s| && s[|s| - |name|..] == name && AtBoundary(s, |s| - |name|, word)
  }

  predicate Dangles(s: string, names: set<string>, word: char -> bool) {
    exists name :: name in names && EndsIn(s, name, word)
  }

  /** Read one after the other, the two statements hold a call that neither makes. */
  predicate Crosses(s: string, t: string, names: set<string>, word: char -> bool) {
    Dangles(s, names, word) && t != "" && t[0] == '('
  }

  predicate Apart(ss: seq<string>, names: set<string>, word: char -> bool) {
    forall i :: 0 <= i < |ss| - 1 ==> !Crosses(ss[i], ss[i + 1], names, word)
  }

  function CallsIn(ss: seq<string>, names: set<string>, word: char -> bool): nat {
    if ss == [] then 0 else Calls(ss[0], names, word) + CallsIn(ss[1..], names, word)
  }

  // ---------------------------------------------------------------------------
  // Counting positions

  lemma {:induction false} CountPrefix(u: string, p: string, n: nat, names: set<string>, word: char -> bool)
    requires n <= |u| + 1 && n <= |p| + 1
    requires forall i :: 0 <= i < n && IsCall(p, i, names, word) ==> IsCall(u, i, names, word)
    ensures CountCalls(u, n, names, word) >= CountCalls(p, n, names, word)
    ensures CountCalls(u, n, names, word) == CountCalls(p, n, names, word) <==>
            forall i :: 0 <= i < n && IsCall(u, i, names, word) ==> IsCall(p, i, names, word)
  {
    hide IsCall;
    if n > 0 {
      CountPrefix(u, p, n - 1, names, word);
    }
  }

  lemma {:induction false} CountShift(u: string, k: nat, r: string, n: nat, names: set<string>, word: char -> bool)
    requires k + n <= |u| + 1 && n <= |r| + 1
    requires forall i :: 0 <= i < n ==> (IsCall(u, k + i, names, word) <==> IsCall(r, i, names, word))
    ensures CountCalls(u, k + n, names, word) == CountCalls(u, k, names, word) + CountCalls(r, n, names, word)
  {
    hide IsCall;
    if n > 0 {
      CountShift(u, k, r, n - 1, names, word);
      assert IsCall(u, k + (n - 1), names, word) <==> IsCall(r, n - 1, names, word);
    }
  }

  lemma {:induction false} CountNone(u: string, k: nat, n: nat, names: set<string>, word: char -> bool)
    requires k <= n <= |u| + 1 && forall i :: k <= i < n ==> !IsCall(u, i, names, word)
    ensures CountCalls(u, n, names, word) == CountCalls(u, k, names, word)
  {
    hide IsCall;
    if k < n {
      CountNone(u, k, n - 1, names, word);
    }
  }

  lemma {:induction false} CountSome(u: string, i: nat, n: nat, names: set<string>, word: char -> bool)
    requires i < n <= |u| + 1 && IsCall(u, i, names, word)
    ensures CountCalls(u, n, names, word) >= 1
  {
    hide IsCall;
    if i < n - 1 {
      CountSome(u, i, n - 1, names, word);
    }
  }

  // ---------------------------------------------------------------------------
  // Calls in a statement and in what follows it

  lemma NoCallAtSpace(s: string, i: nat, names: set<string>, word: char -> bool)
    requires i <= |s| && AreNames(names) && (i < |s| ==> IsSpace(s[i]))
    ensures !IsCall(s, i, names, word)
  {
    forall name | name in names ensures !StartsWith(s[i..], name) {
      assert IsLetter(name[0]) && (i < |s| ==> s[i..][0] == s[i]);
    }
  }

  /** Where whitespace ends, a call begins as at the beginning of a text. */
  lemma SameCall(g: string, r: string, i: nat, name: string, word: char -> bool)
    requires Separates(word) && i <= |r| && (g != "" ==> IsSpace(g[|g| - 1]))
    ensures CallAt(g + r, |g| + i, name, word) <==> CallAt(r, i, name, word)
  {
    var u := g + r;
    assert u[|g| + i..] == r[i..];
    if i > 0 {
      assert u[|g| + i - 1] == r[i - 1];
    } else if g != "" {
      assert u[|g| - 1] == g[|g| - 1];
    }
    if i < |r| {
      assert u[|g| + i] == r[i];
    }
  }

  lemma SameCalls(g: string, r: string, names: set<string>, word: char -> bool)
    requires Separates(word) && (g != "" ==> IsSpace(g[|g| - 1]))
    ensures Calls(g + r, names, word) == CountCalls(g + r, |g|, names, word) + Calls(r, names, word)
  {
    hide CallAt;
    forall i | 0 <= i < |r| + 1 ensures IsCall(g + r, |g| + i, names, word) <==> IsCall(r, i, names, word) {
      forall name ensures CallAt(g + r, |g| + i, name, word) <==> CallAt(r, i, name, word) {
        SameCall(g, r, i, name, word);
      }
    }
    CountShift(g + r, |g|, r, |r| + 1, names, word);
  }

  /** Whitespace before a text holds no call. */
  lemma SpaceCalls(w: string, r: string, names: set<string>, word: char -> bool)
    requires Separates(word) && AreNames(names) && AllSpace(w)
    ensures Calls(w + r, names, word) == Calls(r, names, word)
  {
    hide CountCalls, IsCall;
    SameCalls(w, r, names, word);
    forall i | 0 <= i < |w| ensures !IsCall(w + r, i, names, word) {
      NoCallAtSpace(w + r, i, names, word);
    }
    CountNone(w + r, 0, |w|, names, word);
    NothingCounted(w + r, names, word);
  }

  lemma NothingCounted(s: string, names: set<string>, word: char -> bool)
    ensures CountCalls(s, 0, names, word) == 0
  {
  }

  /** A call that begins in a statement is a call of the statement, or its name ends the statement
      and what follows begins with a parenthesis. */
  lemma CallInFront(p: string, w: string, r: string, i: nat, name: string, word: char -> bool)
    requires IsWordOf(name) && p != "" && Trimmed(p) && AllSpace(w) && i < |p|
    requires (w != "" || r == "") && (r != "" ==> !IsSpace(r[0]))
    ensures CallAt(p + w + r, i, name, word) <==>
              || CallAt(p, i, name, word)
              || (i + |name| == |p| && EndsIn(p, name, word) && r != "" && r[0] == '(')
  {
    var u, q := p + w + r, p[i..];
    assert u[i] == p[i] && (i > 0 ==> u[i - 1] == p[i - 1]) && q[|q| - 1] == p[|p| - 1];
    hide IsWordOf, Opens, IsSpace;
    assert u[i..] == q + w + r;
    OpensInFront(q, w, r, name);
  }

  lemma OpensInFront(q: string, w: string, r: string, name: string)
    requires IsWordOf(name) && q != "" && !IsSpace(q[|q| - 1]) && AllSpace(w)
    requires (w != "" || r == "") && (r != "" ==> !IsSpace(r[0]))
    ensures Opens(q + w + r, name) <==> Opens(q, name) || (q == name && r != "" && r[0] == '(')
  {
    var u, n := q + w + r, |name|;
    if n > |q| {
      NameStopsAtSpace(q, w, r, name);
    } else {
      assert u == q + (w + r) && u[..n] == q[..n];
      if n == |q| {
        assert q == name <==> StartsWith(q, name);
        SkipOf(u, n, |w|);
      } else {
        SkipWithin(q, w + r, n);
      }
    }
  }

  /** A name does not reach over whitespace. */
  lemma NameStopsAtSpace(q: string, w: string, r: string, name: string)
    requires IsWordOf(name) && AllSpace(w) && |q| < |name| && (w != "" || r == "")
    ensures !StartsWith(q + w + r, name) && !StartsWith(q, name)
  {
    var u := q + w + r;
    if |u| > |q| {
      assert u[|q|] == w[0] && IsLetter(name[|q|]);
    }
  }

  /** Before the last character of a trimmed text, whitespace ends within it. */
  lemma SkipWithin(p: string, x: string, n: nat)
    requires n < |p| && !IsSpace(p[|p| - 1])
    ensures SkipSpace(p + x, n) == SkipSpace(p, n) < |p|
  {
    var j := SkipSpace(p, n);
    SkipOf(p + x, n, j - n);
  }

  /** A statement, whitespace and a further text: their calls are counted apart, except for one that
      begins at the end of the statement. */
  lemma {:induction false} PieceCalls(p: string, w: string, r: string, names: set<string>, word: char -> bool)
    requires Separates(word) && AreNames(names) && p != "" && Trimmed(p) && AllSpace(w)
    requires (w != "" || r == "") && (r != "" ==> !IsSpace(r[0]))
    ensures Calls(p + w + r, names, word) >= Calls(p, names, word) + Calls(r, names, word)
    ensures Calls(p + w + r, names, word) == Calls(p, names, word) + Calls(r, names, word) <==>
            !Crosses(p, r, names, word)
  {
    var u := p + w + r;
    hide CallAt, EndsIn, CountCalls, IsSpace, IsWordOf, Separates;
    FrontCalls(p, w, r, names, word);
    SpaceAfterPiece(p, w, r, names, word);
    NoCallAtSpace(p, |p|, names, word);
    CountNone(p, |p|, |p| + 1, names, word);
  }

  lemma SpaceAfterPiece(p: string, w: string, r: string, names: set<string>, word: char -> bool)
    requires Separates(word) && AreNames(names) && AllSpace(w) && (w != "" || r == "")
    ensures Calls(p + w + r, names, word) == CountCalls(p + w + r, |p|, names, word) + Calls(r, names, word)
  {
    var u := p + w + r;
    hide CountCalls, IsCall;
    if r == "" {
      assert u == p + w;
      forall i | |p| <= i < |u| + 1 ensures !IsCall(u, i, names, word) {
        NoCallAtSpace(u, i, names, word);
      }
      CountNone(u, |p|, |u| + 1, names, word);
      NoCallAtSpace("", 0, names, word);
      CountNone("", 0, 1, names, word);
      NothingCounted("", names, word);
    } else {
      assert u == (p + w) + r;
      SameCalls(p + w, r, names, word);
      forall i | |p| <= i < |p + w| ensures !IsCall(u, i, names, word) {
        NoCallAtSpace(u, i, names, word);
      }
      CountNone(u, |p|, |p + w|, names, word);
    }
  }

  lemma FrontCalls(p: string, w: string, r: string, names: set<string>, word: char -> bool)
    requires AreNames(names) && p != "" && Trimmed(p) && AllSpace(w)
    requires (w != "" || r == "") && (r != "" ==> !IsSpace(r[0]))
    ensures var u := p + w + r;
            && CountCalls(u, |p|, names, word) >= CountCalls(p, |p|, names, word)
            && (CountCalls(u, |p|, names, word) == CountCalls(p, |p|, names, word) <==> !Crosses(p, r, names, word))
  {
    var u := p + w + r;
    hide CallAt, CountCalls, IsSpace, IsWordOf, EndsIn;
    forall i, name | 0 <= i < |p| && name in names
      ensures CallAt(u, i, name, word) <==>
                || CallAt(p, i, name, word)
                || (i + |name| == |p| && EndsIn(p, name, word) && r != "" && r[0] == '(')
    {
      CallInFront(p, w, r, i, name, word);
    }
    CountPrefix(u, p, |p|, names, word);
    if Crosses(p, r, names, word) {
      var name :| name in names && EndsIn(p, name, word);
      Dangling(p, names, name, word);
      assert IsCall(u, |p| - |name|, names, word);
    }
  }

  /** Where the text ends with a function name, it makes no call. */
  lemma Dangling(p: string, names: set<string>, name: string, word: char -> bool)
    requires AreNames(names) && name in names && EndsIn(p, name, word)
    ensures 0 <= |p| - |name| < |p| && !IsCall(p, |p| - |name|, names, word)
  {
    var i := |p| - |name|;
    assert p[i..] == name && forall j :: 0 <= j < |name| ==> IsLetter(name[j]) && name[j] != '(';
  }

  // ---------------------------------------------------------------------------
  // Calls of a whole text

  /** The text begins, past its whitespace, with what the first part begins with. */
  predicate Begins(t: string, fs: seq<string>) {
    var i := SkipSpace(t, 0);
    if fs == [] then i == |t| else i < |t| && fs[0] != "" && t[i] == fs[0][0]
  }

  lemma BeginsPastSpace(w: string, t: string, fs: seq<string>)
    requires AllSpace(w) && Begins(t, fs)
    ensures Begins(w + t, fs)
  {
    var i := SkipSpace(t, 0);
    assert forall k :: |w| <= k < |w + t| ==> (w + t)[k] == t[k - |w|];
    SkipOf(w + t, 0, |w| + i);
  }

  lemma BeginsWithPart(p: string, t: string, fs: seq<string>)
    requires p != "" && Trimmed(p)
    ensures Begins(p + t, [p] + fs)
  {
    assert (p + t)[0] == p[0];
  }

  /** Joined slices: a trimmed slice with whitespace on either side, and the rest. */
  lemma JoinedSlice(xs: seq<string>, d: char) returns (left: string, right: string)
    requires xs != []
    ensures AllSpace(left) && AllSpace(right) && Trimmed(Strip(xs[0]))
    ensures Join(xs, d) == left + (Strip(xs[0]) + (right + if |xs| == 1 then "" else [d] + Join(xs[1..], d)))
  {
    left, right := StripSplits(xs[0]);
    StripIsTrimmed(xs[0]);
    hide Strip, AllSpace, Trimmed;
    Regroup4(left, Strip(xs[0]), right, if |xs| == 1 then "" else [d] + Join(xs[1..], d));
  }

  lemma Regroup4(a: string, b: string, c: string, d: string)
    ensures a + b + c + d == a + (b + (c + d))
  {
  }

  lemma NothingBegins()
    ensures Begins("", []) && Fields([]) == []
  {
  }

  lemma {:induction false} JoinBegins(xs: seq<string>, d: char)
    requires IsSpace(d)
    ensures Begins(Join(xs, d), Fields(xs))
    decreases |xs|
  {
    hide Strip, Fields, Begins, Join, IsSpace, Trimmed;
    NothingBegins();
    if xs == [] {
      NothingJoined(d);
    } else {
      var left, right := JoinedSlice(xs, d);
      FieldsCons(xs);
      var p, fs := Strip(xs[0]), Fields(xs[1..]);
      var rest := if |xs| == 1 then "" else [d] + Join(xs[1..], d);
      if |xs| > 1 {
        JoinBegins(xs[1..], d);
        BeginsPastSpace([d], Join(xs[1..], d), fs);
      }
      if p == "" {
        assert p + (right + rest) == right + rest;
        BeginsPastSpace(right, rest, fs);
      } else {
        BeginsWithPart(p, right + rest, fs);
      }
      BeginsPastSpace(left, p + (right + rest), Fields(xs));
    }
  }

  lemma NothingJoined(d: char)
    ensures Join([], d) == ""
  {
  }

  lemma ApartCons(p: string, fs: seq<string>, names: set<string>, word: char -> bool)
    ensures Apart([p] + fs, names, word) <==>
            (fs != [] ==> !Crosses(p, fs[0], names, word)) && Apart(fs, names, word)
    ensures CallsIn([p] + fs, names, word) == Calls(p, names, word) + CallsIn(fs, names, word)
  {
    hide Crosses, Calls;
    var ss := [p] + fs;
    assert ss[1..] == fs;
    if Apart(ss, names, word) {
      forall i | 0 <= i < |fs| - 1 ensures !Crosses(fs[i], fs[i + 1], names, word) {
        assert ss[i + 1] == fs[i] && ss[i + 2] == fs[i + 1];
      }
      if fs != [] {
        assert !Crosses(ss[0], ss[0 + 1], names, word);
      }
    }
    if (fs != [] ==> !Crosses(p, fs[0], names, word)) && Apart(fs, names, word) {
      forall i | 0 <= i < |ss| - 1 ensures !Crosses(ss[i], ss[i + 1], names, word) {
        if i > 0 {
          assert !Crosses(fs[i - 1], fs[i - 1 + 1], names, word);
        }
      }
    }
  }

  /** The calls of the joined slices are the calls of their parts, unless two parts cross. */
  lemma {:induction false} JoinedCalls(xs: seq<string>, d: char, names: set<string>, word: char -> bool)
    requires IsSpace(d) && Separates(word) && AreNames(names)
    ensures Calls(Join(xs, d), names, word) >= CallsIn(Fields(xs), names, word)
    ensures Calls(Join(xs, d), names, word) == CallsIn(Fields(xs), names, word) <==> Apart(Fields(xs), names, word)
    decreases |xs|
  {
    hide Strip, Fields, Calls, CallsIn, Crosses, Apart, Separates, IsSpace, Join, Begins, Trimmed;
    if xs == [] {
      NothingJoined(d);
      NoParts(names, word);
    } else {
      var left, right := JoinedSlice(xs, d);
      FieldsCons(xs);
      var p, fs := Strip(xs[0]), Fields(xs[1..]);
      var t := Join(xs[1..], d);
      var rest := if |xs| == 1 then "" else [d] + t;
      if |xs| == 1 {
        NothingJoined(d);
      }
      JoinedCalls(xs[1..], d, names, word);
      JoinBegins(xs[1..], d);
      SpaceCalls(left, p + (right + rest), names, word);
      if p == "" {
        assert p + (right + rest) == (right + rest[..|rest| - |t|]) + t;
        SpaceCalls(right + rest[..|rest| - |t|], t, names, word);
      } else {
        StatementCalls(p, right, rest[..|rest| - |t|], t, fs, names, word);
        assert p + (right + rest) == p + (right + rest[..|rest| - |t|]) + t;
        ApartCons(p, fs, names, word);
      }
    }
  }

  /** A statement and the text after it, which begins with the other statements. */
  lemma StatementCalls(p: string, right: string, end: string, t: string, fs: seq<string>, names: set<string>,
                       word: char -> bool)
    requires Separates(word) && AreNames(names) && p != "" && Trimmed(p)
    requires AllSpace(right) && AllSpace(end) && Begins(t, fs) && (end != "" || t == "")
    ensures Calls(p + (right + end) + t, names, word) >= Calls(p, names, word) + Calls(t, names, word)
    ensures Calls(p + (right + end) + t, names, word) == Calls(p, names, word) + Calls(t, names, word) <==>
            (fs != [] ==> !Crosses(p, fs[0], names, word))
  {
    var i := SkipSpace(t, 0);
    var w, r := right + end + t[..i], t[i..];
    hide Calls, Crosses, Trimmed, Separates, IsSpace;
    assert t == t[..i] + r && p + (right + end) + t == p + w + r;
    SpaceCalls(t[..i], r, names, word);
    PieceCalls(p, w, r, names, word);
    SameCrossing(p, r, fs, names, word);
  }

  lemma SameCrossing(p: string, r: string, fs: seq<string>, names: set<string>, word: char -> bool)
    requires if fs == [] then r == "" else r != "" && fs[0] != "" && r[0] == fs[0][0]
    ensures Crosses(p, r, names, word) <==> fs != [] && Crosses(p, fs[0], names, word)
  {
    hide Dangles;
  }

  lemma NoParts(names: set<string>, word: char -> bool)
    requires AreNames(names)
    ensures Calls("", names, word) == 0 && Fields([]) == [] && Apart([], names, word)
    ensures CallsIn([], names, word) == 0
  {
    NoCallAtSpace("", 0, names, word);
    assert CountCalls("", 0, names, word) == 0;
  }

  // ---------------------------------------------------------------------------
  // Calls that statements make

  /** A statement makes the calls the text of it shows, if it is one call or none. */
  predicate Direct(s: string, names: set<string>, made: string -> bool, word: char -> bool) {
    Calls(s, names, word) == if made(s) then 1 else 0
  }

  lemma {:induction false} TallyCons(x: string, ss: seq<string>, p: string -> bool)
    ensures Tally([x] + ss, p) == (if p(x) then 1 else 0) + Tally(ss, p)
  {
    var n := |ss| - 1;
    if ss == [] {
      assert ([x] + ss)[..0] == [] && Tally([], p) == 0;
    } else {
      TallyCons(x, ss[..n], p);
      assert ([x] + ss)[..n + 1] == [x] + ss[..n] && ([x] + ss)[n + 1] == ss[n];
    }
  }

  lemma {:induction false} CallsTally(ss: seq<string>, names: set<string>, made: string -> bool, word: char -> bool)
    requires forall s :: made(s) ==> Calls(s, names, word) >= 1
    ensures CallsIn(ss, names, word) >= Tally(ss, made)
    ensures CallsIn(ss, names, word) == Tally(ss, made) <==>
            forall i :: 0 <= i < |ss| ==> Direct(ss[i], names, made, word)
  {
    hide Calls;
    if ss != [] {
      CallsTally(ss[1..], names, made, word);
      assert ss == [ss[0]] + ss[1..];
      TallyCons(ss[0], ss[1..], made);
    }
  }

  /** The calls of a text are those its statements make, exactly if no two neighbours cross and each
      statement is one call or none. */
  lemma {:induction false} CallsOfStatements(clean: string, ss: seq<string>, names: set<string>, made: string -> bool,
                                             word: char -> bool)
    requires Separates(word) && AreNames(names) && Split(clean, '\n') == Some(ss)
    requires forall s :: made(s) ==> Calls(s, names, word) >= 1
    ensures Calls(clean, names, word) == Tally(ss, made) <==>
            Apart(ss, names, word) && forall i :: 0 <= i < |ss| ==> Direct(ss[i], names, made, word)
  {
    hide Slices, Fields, Calls, Apart, Direct;
    var xs := Slices(clean, "", '\n').value;
    SlicesRebuild(clean, "", '\n');
    JoinedCalls(xs, '\n', names, word);
    CallsTally(ss, names, made, word);
  }

  lemma CallBegins(g: string, s: string, name: string, word: char -> bool)
    requires Letters(word) && IsWordOf(name) && CallOf(s, name).Some? && (g != "" ==> !word(g[|g| - 1]))
    ensures CallAt(g + s, |g|, name, word)
  {
    var u := g + s;
    assert u[|g|..] == s && u[|g|] == s[0] == name[0] && IsLetter(name[0]);
    assert g != "" ==> u[|g| - 1] == g[|g| - 1];
  }

  lemma CallCounts(u: string, i: nat, name: string, names: set<string>, word: char -> bool)
    requires i <= |u| && name in names && CallAt(u, i, name, word)
    ensures Calls(u, names, word) >= 1
  {
    hide CountCalls, CallAt;
    CountSome(u, i, |u| + 1, names, word);
  }

  lemma CallIsCounted(g: string, s: string, name: string, names: set<string>, word: char -> bool)
    requires Letters(word) && IsWordOf(name) && name in names && CallOf(s, name).Some?
    requires g != "" ==> !word(g[|g| - 1])
    ensures Calls(g + s, names, word) >= 1
  {
    hide CallAt, Calls, CallOf, Letters, IsWordOf;
    CallBegins(g, s, name, word);
    CallCounts(g + s, |g|, name, names, word);
  }

  lemma InstallationIsCall(s: string, word: char -> bool)
    requires Letters(word) && InstallerOf(s).Some?
    ensures Calls(s, INSTALL, word) >= 1
  {
    CallNames();
    hide CallOf, Calls;
    CallIsCounted("", s, "install_headers", INSTALL, word);
    assert "" + s == s;
  }

  lemma LibraryCallIsCall(g: string, s: string, word: char -> bool)
    requires Letters(word) && LibraryCall(s).Some? && (g != "" ==> !word(g[|g| - 1]))
    ensures Calls(g + s, LIBRARY, word) >= 1
  {
    CallNames();
    hide CallOf, Calls;
    CallIsCounted(g, s, if CallOf(s, "static_library").Some? then "static_library" else "library", LIBRARY, word);
  }

  lemma LibraryIsCall(s: string, word: char -> bool)
    requires Letters(word) && LibraryOf(s, word).Some?
    ensures Calls(s, LIBRARY, word) >= 1
  {
    hide LibraryCall, Calls;
    if LibraryCall(s).Some? {
      LibraryCallIsCall("", s, word);
      assert "" + s == s;
    } else {
      var j := SkipSpace(s, SkipSpace(s, WordRun(s, word)) + 1);
      LibraryCallIsCall(s[..j], s[j..], word);
      assert s[..j] + s[j..] == s;
    }
  }
}
