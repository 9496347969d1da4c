/** What the history check accepts: further rows never hurt; without further events it is exact. */
module HistoryLaws {
  import opened WordSplit
  import opened Text
  import opened History

  // ---------------------------------------------------------------------------
  // Labels

  predicate IsLower(c: char) { 'a' <= c <= 'z' }

  predicate AllLower(w: string) { w != "" && forall k :: 0 <= k < |w| ==> IsLower(w[k]) }

  lemma InstallsAreLower()
    ensures forall w :: w in INSTALLS ==> AllLower(w) && w !in DEPLOYMENT
  {
  }

  lemma UpdatesAreLower()
    ensures forall w :: w in UPDATES ==> AllLower(w) && w !in DEPLOYMENT
  {
  }

  lemma UninstallsAreLower()
    ensures forall w :: w in UNINSTALLS ==> AllLower(w) && w !in DEPLOYMENT
  {
  }

  lemma AliasIsWord(w: string)
    requires Alias(w).Some?
    ensures IsWord(w) && w !in DEPLOYMENT
  {
    hide INSTALLS, UPDATES, UNINSTALLS, DEPLOYMENT;
    InstallsAreLower();
    UpdatesAreLower();
    UninstallsAreLower();
    assert AllLower(w);
    forall k | 0 <= k < |w| ensures !IsSpace(w[k]) {
      assert IsLower(w[k]);
    }
  }

  /** A label names a lifecycle concept exactly if, after an optional deployment prefix, it is
      one of the known words. */
  lemma {:induction false} ChangeIsOneWord(fold: string -> string, text: string, w: string)
    requires Alias(w).Some?
    ensures Join(Labelled(Words(Blanks(fold(text))))) == w <==>
              Words(Blanks(fold(text))) == [w] || exists d :: d in DEPLOYMENT && Words(Blanks(fold(text))) == [d, w]
    ensures Join(Labelled(Words(Blanks(fold(text))))) == w ==> Change(fold, text) == Alias(w)
  {
    hide Alias, DEPLOYMENT;
    AliasIsWord(w);
    var words := Words(Blanks(fold(text)));
    assert AllWords(Labelled(words));
    JoinedWord(Labelled(words), w);
    if Labelled(words) == [w] && words != [w] {
      assert words == [words[0]] + words[1..];
      assert words == [words[0], w];
    }
    if d :| d in DEPLOYMENT && words == [d, w] {
      assert words[1..] == [w];
    }
  }

  function Tabbed(fs: seq<string>): string {
    if fs == [] then "" else if |fs| == 1 then fs[0] else fs[0] + "\t" + Tabbed(fs[1..])
  }

  /** The columns of a row hold no tab and rebuild the row, so no other columns do. */
  lemma {:induction false} FieldsRebuild(row: string)
    ensures Tabbed(Fields(row)) == row && forall i :: 0 <= i < |Fields(row)| ==> '\t' !in Fields(row)[i]
  {
    if row != "" {
      var fs := Fields(row[1..]);
      FieldsRebuild(row[1..]);
      if row[0] == '\t' {
        assert ([""] + fs)[1..] == fs && row == "" + "\t" + row[1..];
      } else {
        TabbedPrepend(row[0], fs);
        assert row == [row[0]] + row[1..];
      }
    }
  }

  lemma TabbedPrepend(c: char, fs: seq<string>)
    requires fs != []
    ensures Tabbed([[c] + fs[0]] + fs[1..]) == [c] + Tabbed(fs)
  {
    assert ([[c] + fs[0]] + fs[1..])[1..] == fs[1..];
    if |fs| > 1 {
      assert ([c] + fs[0]) + "\t" + Tabbed(fs[1..]) == [c] + (fs[0] + "\t" + Tabbed(fs[1..]));
    }
  }

  /** The wrapper of a named system installation is presentation only. */
  lemma {:induction false} WrapperIsPresentation(source: string)
    ensures Store("system (" + source + ")") == source
  {
    var wrapped := "system (" + source + ")";
    assert wrapped[8..|wrapped| - 1] == source;
  }

  // ---------------------------------------------------------------------------
  // Subsequences of parts

  lemma SubsequenceTransitive<T(!new)>(a: seq<T>, b: seq<T>, c: seq<T>)
    requires Subsequence(a, b) && Subsequence(b, c)
    ensures Subsequence(a, c)
  {
    var p := Embedded(a, b);
    var q := Embedded(b, c);
    var at := seq(|a|, i requires 0 <= i < |a| => q[p[i]]);
    assert Embeds(a, c, at);
  }

  lemma SubsequenceSelf<T(!new)>(a: seq<T>)
    ensures Subsequence(a, a)
  {
    assert Embeds(a, a, seq(|a|, i requires 0 <= i < |a| => i));
  }

  lemma SubsequenceAppend<T(!new)>(a: seq<T>, b: seq<T>, c: seq<T>, d: seq<T>)
    requires Subsequence(a, b) && Subsequence(c, d)
    ensures Subsequence(a + c, b + d)
  {
    var p := Embedded(a, b);
    var q := Embedded(c, d);
    var at := p + Shift(q, |b|);
    forall i | 0 <= i < |at| ensures at[i] < |b + d| && (b + d)[at[i]] == (a + c)[i] {
      if i >= |a| { assert at[i] == q[i - |a|] + |b|; }
    }
    assert Embeds(a + c, b + d, at);
  }

  lemma {:induction false} PositionsRise(at: seq<nat>, n: nat)
    requires forall i :: 0 <= i < |at| ==> at[i] < n
    requires forall i, j :: 0 <= i < j < |at| ==> at[i] < at[j]
    ensures |at| <= n && forall i :: 0 <= i < |at| ==> at[i] >= i
    ensures |at| == n ==> forall i :: 0 <= i < |at| ==> at[i] == i
  {
    if at != [] {
      var k := |at| - 1;
      PositionsRise(at[..k], at[k]);
      assert forall i :: 0 <= i < k ==> at[..k][i] == at[i];
    }
  }

  /** A subsequence is no longer than the whole, and as long only if it is the whole. */
  lemma SubsequenceLength<T(!new)>(a: seq<T>, b: seq<T>)
    requires Subsequence(a, b)
    ensures |a| <= |b| && (|a| == |b| ==> a == b)
  {
    var at := Embedded(a, b);
    PositionsRise(at, |b|);
  }

  // ---------------------------------------------------------------------------
  // Rows

  ghost predicate Accepts(fold: string -> string, rows: seq<string>, installation: string, required: seq<Step>) {
    RowsOk(fold, installation, rows) && Subsequence(required, Events(fold, rows))
  }

  lemma {:induction false} EventsAppend(fold: string -> string, a: seq<string>, b: seq<string>)
    ensures Events(fold, a + b) == Events(fold, a) + Events(fold, b)
  {
    hide Event, Events;
    if b == [] {
      assert a + b == a;
      NoEvents(fold);
    } else {
      var n := |b| - 1;
      EventsAppend(fold, a, b[..n]);
      assert b == b[..n] + [b[n]] && a + b == (a + b[..n]) + [b[n]];
      EventsOfLast(fold, a + b[..n], b[n]);
      EventsOfLast(fold, b[..n], b[n]);
    }
  }

  lemma NoEvents(fold: string -> string)
    ensures Events(fold, []) == []
  {
  }

  lemma EventsOfLast(fold: string -> string, front: seq<string>, last: string)
    ensures Events(fold, front + [last]) == Events(fold, front) + Event(fold, last)
  {
    hide Event;
    assert (front + [last])[..|front|] == front;
  }

  lemma EventsOfOne(fold: string -> string, row: string)
    ensures Events(fold, [row]) == Event(fold, row)
  {
    hide Event;
    assert [row][..0] == [] && Events(fold, []) == [];
    assert [] + Event(fold, row) == Event(fold, row);
  }

  /** Rows inserted anywhere only insert events. */
  lemma {:induction false} EventsOfMore(fold: string -> string, rows: seq<string>, more: seq<string>)
    requires Subsequence(rows, more)
    ensures Subsequence(Events(fold, rows), Events(fold, more))
    decreases |more|
  {
    hide Event, Subsequence, Embeds;
    if rows == [] {
      NothingEmbeds(Events(fold, more));
    } else if more == [] {
      NoRoom(rows);
    } else {
      var e, f := Events(fold, rows[1..]), Events(fold, more[1..]);
      assert more == [more[0]] + more[1..] && rows == [rows[0]] + rows[1..];
      EventsAppend(fold, [more[0]], more[1..]);
      EventsAppend(fold, [rows[0]], rows[1..]);
      if rows[0] == more[0] {
        TakeElement(rows, more);
        EventsOfMore(fold, rows[1..], more[1..]);
        SubsequenceSelf(Events(fold, [more[0]]));
        SubsequenceAppend(Events(fold, [more[0]]), Events(fold, [more[0]]), e, f);
      } else {
        SkipElement(rows, more);
        EventsOfMore(fold, rows, more[1..]);
        NothingEmbeds(Events(fold, [more[0]]));
        SubsequenceAppend([], Events(fold, [more[0]]), Events(fold, rows), f);
        assert [] + Events(fold, rows) == Events(fold, rows);
      }
    }
  }

  /** Inserting acceptable rows, auxiliary or lifecycle, never turns acceptance into rejection. */
  lemma {:induction false} MoreRowsAreAccepted(fold: string -> string, rows: seq<string>, more: seq<string>,
                                               installation: string, required: seq<Step>)
    requires Accepts(fold, rows, installation, required)
    requires Subsequence(rows, more) && RowsOk(fold, installation, more)
    ensures Accepts(fold, more, installation, required)
  {
    hide Subsequence, RowsOk, Events;
    EventsOfMore(fold, rows, more);
    SubsequenceTransitive(required, Events(fold, rows), Events(fold, more));
  }

  /** An acceptable auxiliary row never matters. */
  lemma {:induction false} AuxiliaryRowsDoNotMatter(fold: string -> string, before: seq<string>, row: string,
                                                    after: seq<string>, installation: string, required: seq<Step>)
    requires RowOk(fold, installation, row) && Change(fold, Fields(row)[2]).None?
    ensures Accepts(fold, before + [row] + after, installation, required) <==>
              Accepts(fold, before + after, installation, required)
  {
    hide Subsequence, Events, RowOk, RowsOk, Event;
    NoEvent(fold, installation, row);
    EventsOfOne(fold, row);
    EventsAppend(fold, before, [row]);
    EventsAppend(fold, before + [row], after);
    EventsAppend(fold, before, after);
    assert Events(fold, before) + [] == Events(fold, before);
    RowsOkAppend(fold, installation, before, [row]);
    RowsOkAppend(fold, installation, before + [row], after);
    RowsOkAppend(fold, installation, before, after);
    OneRowOk(fold, installation, row);
  }

  lemma NoEvent(fold: string -> string, installation: string, row: string)
    requires RowOk(fold, installation, row) && Change(fold, Fields(row)[2]).None?
    ensures Event(fold, row) == []
  {
  }

  lemma OneRowOk(fold: string -> string, installation: string, row: string)
    ensures RowsOk(fold, installation, [row]) <==> RowOk(fold, installation, row)
  {
    hide RowOk;
    assert [row][0] == row;
  }

  lemma RowsOkAppend(fold: string -> string, installation: string, a: seq<string>, b: seq<string>)
    ensures RowsOk(fold, installation, a + b) <==> RowsOk(fold, installation, a) && RowsOk(fold, installation, b)
  {
    hide RowOk;
    assert forall i :: 0 <= i < |a| ==> (a + b)[i] == a[i];
    assert forall i :: 0 <= i < |b| ==> (a + b)[|a| + i] == b[i];
  }

  /** With fewer events than steps nothing is accepted; with as many, only the steps themselves in
      their order. */
  lemma {:induction false} ExactHistory(fold: string -> string, rows: seq<string>, installation: string,
                                        required: seq<Step>)
    requires |Events(fold, rows)| <= |required|
    ensures Accepts(fold, rows, installation, required) <==>
              RowsOk(fold, installation, rows) && Events(fold, rows) == required
  {
    hide Events, RowsOk, Subsequence;
    if Subsequence(required, Events(fold, rows)) {
      SubsequenceLength(required, Events(fold, rows));
    }
    SubsequenceSelf(required);
  }
}
