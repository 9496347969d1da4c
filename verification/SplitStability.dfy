/** Splitting is stable: the parts split to themselves, alone or joined again. */
module SplitStability {
  import opened Options
  import opened Lexer
  import opened Text
  import opened Splitter
  import opened SplitterLaws

  // ---------------------------------------------------------------------------
  // Reading a slice before another text

  /** A quote that `x` leaves open, `y` leaves open too. */
  ghost predicate LeavesOpen(x: string, y: string) {
    forall q: char, skip: bool :: IsQuote(q) && CloseQuote(x, q, skip).None? ==> CloseQuote(y, q, skip).None?
  }

  lemma {:induction false} WholeBefore(t: string, x: string, y: string, stack: string, d: char)
    requires Whole(t, x, stack, d) && LeavesOpen(x, y)
    ensures Whole(t, y, stack, d)
    decreases |t|
  {
    if t != "" {
      var n := TokenLength(t + x);
      SameToken(t, x, y);
      WholeBefore(t[n..], x, y, Step(t[..n], stack, d).stack, d);
    }
  }

  lemma SameToken(t: string, x: string, y: string)
    requires t != "" && TokenLength(t + x) <= |t| && LeavesOpen(x, y)
    ensures TokenLength(t + y) == TokenLength(t + x)
  {
    var n := TokenLength(t + x);
    if LiteralLength(t + x).Some? {
      assert t + x == t[..n] + (t[n..] + x) && t + y == t[..n] + (t[n..] + y);
      LiteralReadsAhead(t[..n], t[n..] + x, t[n..] + y);
    } else if IsQuote(t[0]) {
      var q := t[0];
      assert (t + x)[1..] == t[1..] + x && (t + y)[1..] == t[1..] + y;
      CloseQuoteAppend(t[1..], x, q, false);
      CloseQuoteAppend(t[1..], y, q, false);
    }
  }

  lemma {:induction false} WholeAlone(t: string, stack: string, d: char)
    requires Whole(t, "", stack, d)
    ensures Slices(t, stack, d) == Some([t])
    decreases |t|
  {
    assert t + "" == t;
    if t != "" {
      var n := TokenLength(t);
      var stack' := Step(t[..n], stack, d).stack;
      WholeAlone(t[n..], stack', d);
      assert Slices(t, stack, d) == Prepend(t[..n], Some([t[n..]]));
      assert t == t[..n] + t[n..] && [t] + [t[n..]][1..] == [t];
    }
  }

  /** A delimiter the generator splits at: a comma, a newline, a plus sign or a semicolon. */
  predicate IsSeparator(d: char) { !IsQuote(d) && d != '\\' && !IsOpen(d) && !IsClose(d) }

  lemma {:induction false} WholeThen(t: string, y: string, stack: string, d: char)
    requires Whole(t, [d] + y, stack, d) && IsSeparator(d)
    ensures Slices(t + [d] + y, stack, d) == Push(t, Slices(y, "", d))
    decreases |t|
  {
    var s := t + [d] + y;
    var r := Slices(y, "", d);
    assert s == t + ([d] + y);
    if t == "" {
      assert s == [d] + y;
    } else {
      var n := TokenLength(s);
      var stack' := Step(t[..n], stack, d).stack;
      WholeThen(t[n..], y, stack', d);
      hide TokenLength, Whole, Step;
      assert s[..n] == t[..n] && s[n..] == t[n..] + [d] + y && t == t[..n] + t[n..];
      assert Slices(s, stack, d) == Prepend(t[..n], Push(t[n..], r));
      if r.Some? {
        assert ([t[n..]] + r.value)[1..] == r.value;
      }
    }
  }

  // ---------------------------------------------------------------------------
  // Trimming a slice

  lemma {:induction false} CloseQuoteEndsAtQuote(s: string, q: char, skip: bool)
    requires CloseQuote(s, q, skip).Some?
    ensures s[CloseQuote(s, q, skip).value - 1] == q
  {
    if skip || s[0] == '\\' || s[0] != q {
      CloseQuoteEndsAtQuote(s[1..], q, !skip && s[0] == '\\');
    }
  }

  lemma {:induction false} WholeTrimLeft(left: string, t: string, x: string, d: char)
    requires AllSpace(left) && Whole(left + t, x, "", d)
    ensures Whole(t, x, "", d)
    decreases |left|
  {
    if left == "" {
      assert left + t == t;
    } else {
      var s := left + t;
      assert IsSpace(s[0]) && (s + x)[0] == s[0];
      assert TokenLength(s + x) == 1 && s[1..] == left[1..] + t;
      WholeTrimLeft(left[1..], t, x, d);
    }
  }

  lemma {:induction false} SpaceKeepsStack(right: string, x: string, stack: string, d: char)
    requires AllSpace(right) && Whole(right, x, stack, d)
    ensures stack == ""
    decreases |right|
  {
    if right != "" {
      assert IsSpace(right[0]) && (right + x)[0] == right[0];
      assert TokenLength(right + x) == 1 && right[..1] == [right[0]];
      SpaceKeepsStack(right[1..], x, stack, d);
    }
  }

  lemma TokenAvoidsSpace(t: string, right: string, x: string)
    requires t != "" && AllSpace(right) && TokenLength(t + right + x) <= |t + right|
    ensures TokenLength(t + right + x) <= |t|
  {
    var s := t + right + x;
    var n := TokenLength(s);
    if n > |t| {
      CloseQuoteEndsAtQuote(s[1..], s[0], false);
    }
  }

  lemma {:induction false} WholeTrimRight(t: string, right: string, x: string, stack: string, d: char)
    requires t != "" && AllSpace(right) && Whole(t + right, x, stack, d)
    ensures Whole(t, right + x, stack, d)
    decreases |t|
  {
    var s := t + right;
    assert s + x == t + (right + x);
    TokenAvoidsSpace(t, right, x);
    var n := TokenLength(s + x);
    assert s[..n] == t[..n] && s[n..] == t[n..] + right;
    var stack' := Step(t[..n], stack, d).stack;
    if n == |t| {
      assert t[n..] + right == right;
      SpaceKeepsStack(right, x, stack', d);
    } else {
      WholeTrimRight(t[n..], right, x, stack', d);
    }
  }

  /** A slice read before `x`, once trimmed, is read before its trailing space and `x`. */
  lemma StripStaysWhole(t: string, x: string, d: char) returns (right: string)
    requires Whole(t, x, "", d)
    ensures AllSpace(right) && Whole(Strip(t), right + x, "", d)
  {
    var left, r := StripSplits(t);
    right := r;
    assert t == left + (Strip(t) + right);
    WholeTrimLeft(left, Strip(t) + right, x, d);
    if Strip(t) == "" {
    } else {
      WholeTrimRight(Strip(t), right, x, "", d);
    }
  }

  // ---------------------------------------------------------------------------
  // The parts

  lemma FieldsCons(xs: seq<string>)
    requires xs != []
    ensures Fields(xs) == if Strip(xs[0]) == "" then Fields(xs[1..]) else [Strip(xs[0])] + Fields(xs[1..])
    ensures |xs| == 1 ==> Fields(xs[1..]) == []
  {
    hide Strip;
    assert Trims(xs)[1..] == Trims(xs[1..]);
    assert [] + Fields(xs[1..]) == Fields(xs[1..]);
  }

  lemma {:induction false} PartsAreTrimmed(xs: seq<string>)
    ensures forall k :: 0 <= k < |Fields(xs)| ==> Fields(xs)[k] != "" && Trimmed(Fields(xs)[k])
  {
    if xs != [] {
      FieldsCons(xs);
      StripIsTrimmed(xs[0]);
      PartsAreTrimmed(xs[1..]);
    }
  }

  lemma {:induction false} TrimmedPartsAreFields(parts: seq<string>)
    requires forall k :: 0 <= k < |parts| ==> parts[k] != "" && Trimmed(parts[k])
    ensures Fields(parts) == parts
  {
    if parts != [] {
      FieldsCons(parts);
      StripKeepsTrimmed(parts[0]);
      TrimmedPartsAreFields(parts[1..]);
    }
  }

  lemma LastPartSlices(slice: string, x: string, d: char)
    requires Whole(slice, x, "", d)
    ensures Slices(Strip(slice), "", d) == Some([Strip(slice)])
  {
    var part := Strip(slice);
    var right := StripStaysWhole(slice, x, d);
    hide Strip, Slices, Whole;
    WholeBefore(part, right + x, "", "", d);
    WholeAlone(part, "", d);
  }

  /** Each part, given to the splitter alone, comes back as the only part. */
  lemma {:induction false} PartSplitsToItself(s: string, d: char, k: nat)
    requires Split(s, d).Some? && k < |Split(s, d).value|
    ensures Split(Split(s, d).value[k], d) == Some([Split(s, d).value[k]])
    decreases |s|
  {
    hide Strip, Slices, Fields, Whole, Trimmed;
    var xs := Slices(s, "", d).value;
    var x := FirstSlice(s, "", d);
    var part := Strip(xs[0]);
    FieldsCons(xs);
    if part != "" && k == 0 {
      LastPartSlices(xs[0], x, d);
      StripIsTrimmed(xs[0]);
      TrimmedPartsAreFields([part]);
    } else {
      PartSplitsToItself(x[1..], d, if part == "" then k else k - 1);
    }
  }

  lemma {:induction false} SpaceIsTransparent(w: string, q: char, skip: bool)
    requires AllSpace(w) && IsQuote(q)
    ensures CloseQuote(w, q, skip).None? && (w != "" ==> !SkipAfter(w, skip))
  {
    if w != "" {
      assert IsSpace(w[0]);
      SpaceIsTransparent(w[1..], q, false);
    }
  }

  /** Across spaces and a separator, only what follows can close a quote. */
  lemma SeparatorClosesEscape(w: string, d: char, rest: string, q: char, skip: bool)
    requires AllSpace(w) && IsSeparator(d) && IsQuote(q)
    ensures CloseQuote(w + [d] + rest, q, skip).None? <==> CloseQuote(rest, q, false).None?
  {
    assert w + [d] + rest == w + ([d] + rest);
    CloseQuoteAppend(w, [d] + rest, q, skip);
    SpaceIsTransparent(w, q, skip);
    assert ([d] + rest)[1..] == rest;
  }

  lemma LeftPieceOpen(left: string, t: string, q: char)
    requires AllSpace(left) && IsQuote(q) && CloseQuote(left + t, q, false).None?
    ensures CloseQuote(t, q, false).None?
  {
    CloseQuoteAppend(left, t, q, false);
    SpaceIsTransparent(left, q, false);
  }

  /** What a slice and the slices after it leave open, the trimmed slice and the rest leave open. */
  lemma SliceLeavesOpen(slice: string, rest: string, d: char, q: char)
    requires IsSeparator(d) && IsQuote(q) && CloseQuote(slice + [d] + rest, q, false).None?
    ensures CloseQuote(Strip(slice), q, false).None? && CloseQuote(rest, q, false).None?
  {
    var left, right := StripSplits(slice);
    var part := Strip(slice);
    hide Strip;
    var after := right + [d] + rest;
    assert slice + [d] + rest == left + (part + after);
    LeftPieceOpen(left, part + after, q);
    CloseQuoteAppend(part, after, q, false);
    SeparatorClosesEscape(right, d, rest, q, SkipAfter(part, false));
  }

  lemma LastSliceLeavesOpen(slice: string, q: char)
    requires IsQuote(q) && CloseQuote(slice, q, false).None?
    ensures CloseQuote(Strip(slice), q, false).None?
  {
    var left, right := StripSplits(slice);
    var part := Strip(slice);
    hide Strip;
    assert slice == left + (part + right);
    LeftPieceOpen(left, part + right, q);
    CloseQuoteAppend(part, right, q, false);
  }

  lemma PartThenOpen(part: string, d: char, joined: string, q: char)
    requires IsSeparator(d) && IsQuote(q)
    requires CloseQuote(part, q, false).None? && CloseQuote(joined, q, false).None?
    ensures CloseQuote(part + [d] + joined, q, false).None?
  {
    var after := "" + [d] + joined;
    assert part + [d] + joined == part + after;
    SeparatorClosesEscape("", d, joined, q, SkipAfter(part, false));
    CloseQuoteAppend(part, after, q, false);
  }

  /** A quote that the slices leave open, the joined parts leave open. */
  lemma {:induction false} JoinedPartsLeaveOpen(xs: seq<string>, d: char, q: char)
    requires xs != [] && IsSeparator(d) && IsQuote(q) && CloseQuote(Join(xs, d), q, false).None?
    ensures CloseQuote(Join(Fields(xs), d), q, false).None?
  {
    hide Strip, Fields, CloseQuote;
    var part, fs := Strip(xs[0]), Fields(xs[1..]);
    FieldsCons(xs);
    if |xs| == 1 {
      LastSliceLeavesOpen(xs[0], q);
    } else {
      SliceLeavesOpen(xs[0], Join(xs[1..], d), d, q);
      JoinedPartsLeaveOpen(xs[1..], d, q);
      if part != "" && fs != [] {
        assert Fields(xs)[1..] == fs;
        PartThenOpen(part, d, Join(fs, d), q);
      }
    }
    if Fields(xs) == [] {
    }
  }

  lemma NoSlices(d: char)
    ensures Slices("", "", d) == Some([""])
  {
  }

  /** Before its trailing space and the other slices, or before the other parts:
      a slice leaves the same quotes open. */
  lemma PartsFollow(right: string, xs: seq<string>, d: char)
    requires |xs| > 1 && AllSpace(right) && IsSeparator(d)
    ensures LeavesOpen(right + ([d] + Join(xs[1..], d)), [d] + Join(Fields(xs[1..]), d))
  {
    var rest, joined := Join(xs[1..], d), Join(Fields(xs[1..]), d);
    forall q: char, skip: bool | IsQuote(q) && CloseQuote(right + ([d] + rest), q, skip).None?
      ensures CloseQuote([d] + joined, q, skip).None?
    {
      assert right + ([d] + rest) == right + [d] + rest && "" + [d] + joined == [d] + joined;
      SeparatorClosesEscape(right, d, rest, q, skip);
      JoinedPartsLeaveOpen(xs[1..], d, q);
      SeparatorClosesEscape("", d, joined, q, skip);
    }
  }

  /** A trimmed slice before the other parts is the first slice of the joined parts. */
  lemma PartThenSlices(xs: seq<string>, fs: seq<string>, d: char)
    requires |xs| > 1 && Whole(xs[0], [d] + Join(xs[1..], d), "", d) && IsSeparator(d)
    requires fs == Fields(xs[1..]) && fs != [] && Slices(Join(fs, d), "", d) == Some(fs)
    ensures Slices(Strip(xs[0]) + [d] + Join(fs, d), "", d) == Some([Strip(xs[0])] + fs)
  {
    var x := [d] + Join(xs[1..], d);
    var part, joined := Strip(xs[0]), Join(fs, d);
    var right := StripStaysWhole(xs[0], x, d);
    PartsFollow(right, xs, d);
    hide Strip, Slices, Whole, Join, Fields;
    WholeBefore(part, right + x, [d] + joined, "", d);
    WholeThen(part, joined, "", d);
  }

  lemma {:induction false} JoinedPartsSlice(s: string, d: char)
    requires Split(s, d).Some? && IsSeparator(d)
    ensures var fs := Split(s, d).value;
            Slices(Join(fs, d), "", d) == Some(if fs == [] then [""] else fs)
    decreases |s|
  {
    hide Strip, Slices, Fields, Whole;
    var xs := Slices(s, "", d).value;
    var x := FirstSlice(s, "", d);
    var fs := Fields(xs[1..]);
    FieldsCons(xs);
    if |xs| > 1 {
      assert x == [d] + Join(xs[1..], d);
      JoinedPartsSlice(x[1..], d);
    }
    if Strip(xs[0]) == "" {
      NoSlices(d);
    } else if fs == [] {
      LastPartSlices(xs[0], x, d);
      assert Fields(xs) == [Strip(xs[0])];
    } else {
      PartThenSlices(xs, fs, d);
      assert ([Strip(xs[0])] + fs)[1..] == fs;
    }
  }

  /** Splitting the parts joined by the delimiter gives the same parts, even when
      the text leaves a quote open. */
  lemma {:induction false} JoinedPartsSplitAgain(s: string, d: char)
    requires Split(s, d).Some? && IsSeparator(d)
    ensures Split(Join(Split(s, d).value, d), d) == Split(s, d)
  {
    var fs := Split(s, d).value;
    JoinedPartsSlice(s, d);
    PartsAreTrimmed(Slices(s, "", d).value);
    TrimmedPartsAreFields(fs);
    if fs == [] {
      FieldsCons([""]);
      StripKeepsTrimmed("");
    }
  }
}
