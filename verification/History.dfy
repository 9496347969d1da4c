/** Checking a recorded history: rows of the selected installation, required steps in order. */
module History {
  import opened Options
  import opened WordSplit

  type Step = (string, string)

  // ---------------------------------------------------------------------------
  // Rows

  /** The fields between tabs. */
  function Fields(row: string): (fs: seq<string>)
    ensures |fs| >= 1
  {
    if row == "" then [""]
    else
      var fs := Fields(row[1..]);
      if row[0] == '\t' then [""] + fs else [[row[0]] + fs[0]] + fs[1..]
  }

  function Blanks(s: string): string {
    if s == "" then "" else [if s[0] == '-' then ' ' else s[0]] + Blanks(s[1..])
  }

  const DEPLOYMENT := {"deploy", "deployed", "deployment"}

  const INSTALLS := {"install", "installed", "installation"}
  const UPDATES := {"update", "updated"}
  const UNINSTALLS := {"uninstall", "uninstalled", "remove", "removed", "removal"}

  /** The lifecycle concept behind a known word. */
  function Alias(name: string): Option<string> {
    if name in INSTALLS then Some("install") else if name in UPDATES then Some("update")
    else if name in UNINSTALLS then Some("uninstall") else None
  }

  function Labelled(words: seq<string>): seq<string> {
    if words != [] && words[0] in DEPLOYMENT then words[1..] else words
  }

  /** The lifecycle concept of a label; `fold` folds letter case. */
  function Change(fold: string -> string, text: string): Option<string> {
    Alias(Join(Labelled(Words(Blanks(fold(text))))))
  }

  /** The installation a row names: a presentation wrapper is taken off. */
  function Store(source: string): string {
    if |source| >= 9 && source[..8] == "system (" && source[|source| - 1] == ')' then source[8..|source| - 1]
    else if source == "default" then "system"
    else source
  }

  predicate IsAbsolute(path: string) { path != "" && path[0] == '/' }

  /** Three columns; another store than the selected one only for auxiliary rows of a path. */
  predicate RowOk(fold: string -> string, installation: string, row: string) {
    && |Fields(row)| == 3
    && (Store(Fields(row)[0]) == installation
        || (Change(fold, Fields(row)[2]).None? && IsAbsolute(Store(Fields(row)[0]))))
  }

  predicate RowsOk(fold: string -> string, installation: string, rows: seq<string>) {
    forall i :: 0 <= i < |rows| ==> RowOk(fold, installation, rows[i])
  }

  /** The lifecycle step of a row, if it records one. */
  function Event(fold: string -> string, row: string): seq<Step> {
    if |Fields(row)| == 3 && Change(fold, Fields(row)[2]).Some?
    then [(Fields(row)[1], Change(fold, Fields(row)[2]).value)] else []
  }

  function Events(fold: string -> string, rows: seq<string>): seq<Step> {
    if rows == [] then [] else Events(fold, rows[..|rows| - 1]) + Event(fold, rows[|rows| - 1])
  }

  // ---------------------------------------------------------------------------
  // Subsequences

  /** The positions at which `part` occurs in `whole`, in increasing order. */
  predicate Embeds<T(==)>(part: seq<T>, whole: seq<T>, at: seq<nat>) {
    && |at| == |part|
    && (forall i :: 0 <= i < |at| ==> at[i] < |whole| && whole[at[i]] == part[i])
    && (forall i, j :: 0 <= i < j < |at| ==> at[i] < at[j])
  }

  ghost predicate Subsequence<T(!new)>(part: seq<T>, whole: seq<T>) {
    exists at: seq<nat> :: Embeds(part, whole, at)
  }

  lemma NothingEmbeds<T(!new)>(whole: seq<T>)
    ensures Subsequence([], whole)
  {
    assert Embeds([], whole, []);
  }

  function Shift(at: seq<nat>, delta: int): seq<nat>
    requires forall i :: 0 <= i < |at| ==> at[i] + delta >= 0
  {
    seq(|at|, i requires 0 <= i < |at| => at[i] + delta)
  }

  lemma Embedded<T(!new)>(part: seq<T>, whole: seq<T>) returns (at: seq<nat>)
    requires Subsequence(part, whole)
    ensures Embeds(part, whole, at)
  {
    at :| Embeds(part, whole, at);
  }

  /** An element that is not the next step is passed over. */
  lemma SkipElement<T(!new)>(part: seq<T>, whole: seq<T>)
    requires part != [] && whole != [] && part[0] != whole[0]
    ensures Subsequence(part, whole) <==> Subsequence(part, whole[1..])
  {
    if Subsequence(part, whole) {
      var at := Embedded(part, whole);
      assert forall i :: 0 <= i < |at| ==> at[i] >= 1 by {
        assert at[0] != 0;
      }
      assert Embeds(part, whole[1..], Shift(at, -1));
    }
    if Subsequence(part, whole[1..]) {
      var at := Embedded(part, whole[1..]);
      assert Embeds(part, whole, Shift(at, 1));
    }
  }

  /** Taking the first match loses nothing. */
  lemma {:induction false} TakeElement<T(!new)>(part: seq<T>, whole: seq<T>)
    requires part != [] && whole != [] && part[0] == whole[0]
    ensures Subsequence(part, whole) <==> Subsequence(part[1..], whole[1..])
  {
    hide Embeds;
    if Subsequence(part, whole) {
      var at := Embedded(part, whole);
      EmbedsRest(part, whole, at);
    }
    if Subsequence(part[1..], whole[1..]) {
      var at := Embedded(part[1..], whole[1..]);
      EmbedsMore(part, whole, at);
    }
  }

  lemma EmbedsRest<T(!new)>(part: seq<T>, whole: seq<T>, at: seq<nat>)
    requires part != [] && whole != [] && Embeds(part, whole, at)
    ensures Subsequence(part[1..], whole[1..])
  {
    assert forall i :: 1 <= i < |at| ==> at[i] > at[0];
    assert Embeds(part[1..], whole[1..], Shift(at[1..], -1));
  }

  lemma EmbedsMore<T(!new)>(part: seq<T>, whole: seq<T>, at: seq<nat>)
    requires part != [] && whole != [] && part[0] == whole[0] && Embeds(part[1..], whole[1..], at)
    ensures Subsequence(part, whole)
  {
    var all: seq<nat> := [0] + Shift(at, 1);
    forall i | 0 <= i < |all| ensures all[i] < |whole| && whole[all[i]] == part[i] {
      if i > 0 { assert all[i] == at[i - 1] + 1 && part[i] == part[1..][i - 1]; }
    }
    assert Embeds(part, whole, all);
  }

  lemma NoRoom<T(!new)>(part: seq<T>)
    requires part != []
    ensures !Subsequence(part, [])
  {
    forall at: seq<nat> | |at| == |part| ensures !Embeds(part, [], at) {
      assert at[0] >= 0;
    }
  }

  // ---------------------------------------------------------------------------
  // The check

  /** The lifecycle events of the rows, or nothing if a row is not acceptable. */
  method Lifecycle(fold: string -> string, rows: seq<string>, installation: string) returns (r: Option<seq<Step>>)
    ensures r.Some? <==> RowsOk(fold, installation, rows)
    ensures r.Some? ==> r.value == Events(fold, rows)
  {
    hide Change, Fields, Store;
    var lifecycle: seq<Step> := [];
    for i := 0 to |rows|
      invariant RowsOk(fold, installation, rows[..i]) && lifecycle == Events(fold, rows[..i])
    {
      assert rows[..i + 1][..i] == rows[..i];
      var fields := Fields(rows[i]);
      if |fields| != 3 {
        return None;
      }
      var source := Store(fields[0]);
      var change := Change(fold, fields[2]);
      if !(source == installation || (change.None? && IsAbsolute(source))) {
        return None;
      }
      if change.Some? {
        lifecycle := lifecycle + [(fields[1], change.value)];
      }
    }
    assert rows[..|rows|] == rows;
    return Some(lifecycle);
  }

  /** One pass over the events, each step consuming up to its first match; it succeeds exactly
      if the required steps occur in order. */
  method Contract(fold: string -> string, rows: seq<string>, installation: string, required: seq<Step>)
    returns (ok: bool)
    ensures ok <==> RowsOk(fold, installation, rows) && Subsequence(required, Events(fold, rows))
  {
    hide Subsequence, RowsOk, Events;
    var lifecycle := Lifecycle(fold, rows, installation);
    if lifecycle.None? {
      return false;
    }
    var events := lifecycle.value;
    var next := 0;
    assert required[0..] == required && events[0..] == events;
    for k := 0 to |required|
      invariant next <= |events|
      invariant Subsequence(required, events) <==> Subsequence(required[k..], events[next..])
    {
      var found := false;
      while next < |events| && !found
        invariant next <= |events|
        invariant Subsequence(required, events) <==>
                    Subsequence(if found then required[k + 1..] else required[k..], events[next..])
        decreases |events| - next, !found
      {
        found := events[next] == required[k];
        assert events[next..][1..] == events[next + 1..] && required[k..][1..] == required[k + 1..];
        if found {
          TakeElement(required[k..], events[next..]);
        } else {
          SkipElement(required[k..], events[next..]);
        }
        next := next + 1;
      }
      if !found {
        assert events[next..] == [];
        NoRoom(required[k..]);
        return false;
      }
    }
    assert required[|required|..] == [];
    NothingEmbeds(events[next..]);
    return true;
  }
}
