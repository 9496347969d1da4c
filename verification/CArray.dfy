/** Reading a literal C array of rows, and its round trip with a printed table. */
module CArray {
  import opened Options
  import opened Lexer
  import opened Text
  import opened Splitter
  import opened SplitterLaws
  import opened SplitStability

  // ---------------------------------------------------------------------------
  // The array pattern: name, empty brackets, equals, braces around a body, semicolon

  predicate IsWord(c: char) { 'a' <= c <= 'z' || 'A' <= c <= 'Z' || '0' <= c <= '9' || c == '_' }

  predicate WordBoundary(s: string, i: nat)
    requires i <= |s|
  {
    (0 < i && IsWord(s[i - 1])) != (i < |s| && IsWord(s[i]))
  }

  /** Past optional whitespace and the given character. */
  function Expect(s: string, i: nat, c: char): (r: Option<nat>)
    requires i <= |s|
    ensures r.Some? ==> i < r.value <= |s|
  {
    var j := SkipSpace(s, i);
    if j < |s| && s[j] == c then Some(j + 1) else None
  }

  function Then(r: Option<nat>, s: string, c: char): (r': Option<nat>)
    requires r.Some? ==> r.value <= |s|
    ensures r'.Some? ==> r'.value <= |s|
  {
    match r case None => None case Some(i) => Expect(s, i, c)
  }

  /** Where the body starts, if the array header matches at `i`. */
  function Header(s: string, i: nat, name: string): (r: Option<nat>)
    requires i <= |s|
    ensures r.Some? ==> r.value <= |s|
  {
    if WordBoundary(s, i) && i + |name| <= |s| && s[i..i + |name|] == name then
      Then(Then(Then(Expect(s, i + |name|, '['), s, ']'), s, '='), s, '{')
    else None
  }

  predicate EndsBody(s: string, k: nat)
    requires k < |s|
  {
    s[k] == '}' && Expect(s, k + 1, ';').Some?
  }

  /** The first position from `k` on where the body can end. */
  function BodyEnd(s: string, k: nat): (r: Option<nat>)
    requires k <= |s|
    ensures r.Some? ==> k <= r.value < |s| && EndsBody(s, r.value)
    ensures forall j :: k <= j < (if r.Some? then r.value else |s|) ==> !EndsBody(s, j)
    decreases |s| - k
  {
    if k == |s| then None else if EndsBody(s, k) then Some(k) else BodyEnd(s, k + 1)
  }

  function FindBody(s: string, i: nat, name: string): Option<string>
    requires i <= |s|
    decreases |s| - i
  {
    var h := Header(s, i, name);
    if h.Some? && BodyEnd(s, h.value).Some? then Some(s[h.value..BodyEnd(s, h.value).value])
    else if i == |s| then None
    else FindBody(s, i + 1, name)
  }

  // ---------------------------------------------------------------------------
  // The rows

  predicate IsRow(row: string) { |row| >= 2 && row[0] == '{' && row[|row| - 1] == '}' }

  function ReadRows(rows: seq<string>): Option<seq<seq<string>>> {
    if rows == [] then Some([])
    else if !IsRow(rows[0]) then None
    else
      match Split(rows[0][1..|rows[0]| - 1], ',')
      case None => None
      case Some(fields) =>
        match ReadRows(rows[1..])
        case None => None
        case Some(table) => Some([fields] + table)
  }

  function ReadBody(body: string): Option<seq<seq<string>>> {
    match Split(body, ',') case None => None case Some(rows) => ReadRows(rows)
  }

  function ReadArray(text: string, name: string): Option<seq<seq<string>>> {
    match FindBody(text, 0, name) case None => None case Some(body) => ReadBody(body)
  }

  lemma {:induction false} ReadRowsAppend(done: seq<string>, rows: seq<string>)
    ensures ReadRows(done + rows) ==
            if ReadRows(done).Some? && ReadRows(rows).Some? then Some(ReadRows(done).value + ReadRows(rows).value)
            else None
  {
    hide Split;
    if done == [] {
      assert done + rows == rows;
      assert ReadRows(rows).Some? ==> [] + ReadRows(rows).value == ReadRows(rows).value;
    } else {
      assert (done + rows)[1..] == done[1..] + rows;
      ReadRowsAppend(done[1..], rows);
      if IsRow(done[0]) && ReadRows(done).Some? && ReadRows(rows).Some? {
        var r := Split(done[0][1..|done[0]| - 1], ',').value;
        assert [r] + (ReadRows(done[1..]).value + ReadRows(rows).value) ==
               ([r] + ReadRows(done[1..]).value) + ReadRows(rows).value;
      }
    }
  }

  lemma ReadOneRow(row: string)
    ensures ReadRows([row]) == if !IsRow(row) then None
            else match Split(row[1..|row| - 1], ',') case None => None case Some(fields) => Some([fields])
  {
    hide Split;
    assert [row][1..] == [] && ReadRows([]) == Some([]);
    if IsRow(row) && Split(row[1..|row| - 1], ',').Some? {
      var fields := Split(row[1..|row| - 1], ',').value;
      assert [fields] + [] == [fields];
    }
  }

  /** The row loop: the first unrecognised row raises, and so does unbalanced text. */
  method Array(text: string, name: string) returns (result: Option<seq<seq<string>>>)
    ensures result == ReadArray(text, name)
  {
    hide Split, FindBody;
    var body := FindBody(text, 0, name);
    if body.None? {
      return None;
    }
    var rows := SplitC(body.value, ',');
    if rows.None? {
      return None;
    }
    var table: seq<seq<string>> := [];
    for i := 0 to |rows.value|
      invariant ReadRows(rows.value[..i]) == Some(table)
    {
      var row := rows.value[i];
      assert rows.value == rows.value[..i] + rows.value[i..] && rows.value[i..][0] == row;
      ReadRowsAppend(rows.value[..i], rows.value[i..]);
      if !IsRow(row) {
        return None;
      }
      var fields := SplitC(row[1..|row| - 1], ',');
      if fields.None? {
        return None;
      }
      ReadRowsAppend(rows.value[..i], [row]);
      assert rows.value[..i + 1] == rows.value[..i] + [row];
      ReadOneRow(row);
      table := table + [fields.value];
    }
    assert rows.value[..|rows.value|] == rows.value;
    return Some(table);
  }

  // ---------------------------------------------------------------------------
  // Printing a table

  function PrintRow(fields: seq<string>): string { "{" + Join(fields, ',') + "}" }

  function PrintRows(rows: seq<seq<string>>): (r: seq<string>)
    ensures |r| == |rows| && forall k :: 0 <= k < |rows| ==> r[k] == PrintRow(rows[k])
  {
    seq(|rows|, k requires 0 <= k < |rows| => PrintRow(rows[k]))
  }

  function PrintBody(rows: seq<seq<string>>): string { Join(PrintRows(rows), ',') }

  function PrintArray(name: string, rows: seq<seq<string>>): string {
    name + "[] = {" + PrintBody(rows) + "};"
  }

  // ---------------------------------------------------------------------------
  // Reading a text that closes all its quotes

  /** The stack after the tokens of `t`, read before `x`: nothing if a token is cut
      short by the end of `t`, if a bracket does not fit or if the delimiter cuts. */
  function Runs(t: string, x: string, stack: string, d: char): Option<string>
    decreases |t|
  {
    if t == "" then Some(stack)
    else
      var n := TokenLength(t + x);
      if n > |t| then None
      else
        match Step(t[..n], stack, d)
        case Keep(stack') => Runs(t[n..], x, stack', d)
        case _ => None
  }

  lemma {:induction false} RunsIsWhole(t: string, x: string, stack: string, d: char)
    ensures Whole(t, x, stack, d) <==> Runs(t, x, stack, d) == Some("")
    decreases |t|
  {
    if t != "" {
      var n := TokenLength(t + x);
      if n <= |t| && Step(t[..n], stack, d).Keep? {
        RunsIsWhole(t[n..], x, Step(t[..n], stack, d).stack, d);
      }
    }
  }

  /** What is read over an empty stack is read the same above other open brackets. */
  lemma {:induction false} RunsAbove(t: string, x: string, stack: string, base: string, d: char)
    requires Runs(t, x, stack, d).Some?
    ensures Runs(t, x, base + stack, d) == Some(base + Runs(t, x, stack, d).value)
    decreases |t|
  {
    if t != "" {
      var n := TokenLength(t + x);
      var stack' := Step(t[..n], stack, d).stack;
      StepAbove(t[..n], stack, base, d);
      RunsAbove(t[n..], x, stack', base, d);
    }
  }

  lemma StepAbove(token: string, stack: string, base: string, d: char)
    requires Step(token, stack, d).Keep?
    ensures Step(token, base + stack, d) == Keep(base + Step(token, stack, d).stack)
  {
    var stack' := Step(token, stack, d).stack;
    if |token| == 1 && IsOpen(token[0]) {
      assert base + stack + [Closer(token[0])] == base + stack';
    } else if |token| == 1 && IsClose(token[0]) {
      assert (base + stack)[..|base + stack| - 1] == base + stack';
    }
  }

  lemma {:induction false} RunsAppend(a: string, b: string, x: string, stack: string, d: char)
    requires Runs(a, b + x, stack, d).Some?
    ensures Runs(a + b, x, stack, d) == Runs(b, x, Runs(a, b + x, stack, d).value, d)
    decreases |a|
  {
    hide TokenLength, Step;
    if a == "" {
      assert a + b == b;
    } else {
      var n := TokenLength(a + (b + x));
      var stack' := Step(a[..n], stack, d).stack;
      RunsAppend(a[n..], b, x, stack', d);
      assert (a + b) + x == a + (b + x);
      assert (a + b)[..n] == a[..n] && (a + b)[n..] == a[n..] + b;
    }
  }

  /** One character that is neither a quote nor part of a literal. */
  lemma RunsChar(c: char, x: string, stack: string, d: char)
    requires !IsQuote(c)
    ensures Runs([c], x, stack, d) == match Step([c], stack, d) case Keep(s) => Some(s) case _ => None
  {
    assert ([c] + x)[0] == c && [c][..1] == [c] && [c][1..] == "";
  }

  /** A field: trimmed, not empty, and read as one slice before any other text. */
  ghost predicate IsField(f: string, d: char) {
    f != "" && Trimmed(f) && ReadsAnywhere(f, d)
  }

  ghost predicate ReadsAnywhere(t: string, d: char) { forall x: string :: Whole(t, x, "", d) }

  /** No single-character quote token: every quote opens a closed literal. */
  predicate QuotesClosed(s: string)
    decreases |s|
  {
    s == "" || (var n := TokenLength(s); (n == 1 ==> !IsQuote(s[0])) && QuotesClosed(s[n..]))
  }

  lemma {:induction false} ClosedReadsAnywhere(t: string, x: string, stack: string, d: char)
    requires QuotesClosed(t) && Whole(t, "", stack, d)
    ensures Whole(t, x, stack, d)
    decreases |t|
  {
    assert t + "" == t;
    if t != "" {
      var n := TokenLength(t);
      if LiteralLength(t).Some? {
        assert t == t[..n] + t[n..] && t + x == t[..n] + (t[n..] + x);
        LiteralReadsAhead(t[..n], t[n..], t[n..] + x);
      }
      ClosedReadsAnywhere(t[n..], x, Step(t[..n], stack, d).stack, d);
    }
  }

  /** The trimmed parts, joined, are no longer than the text, and shorter if a slice was dropped. */
  lemma {:induction false} PartsAreShorter(xs: seq<string>, d: char)
    requires xs != []
    ensures |Fields(xs)| <= |xs| <= |Join(xs, d)| + 1
    ensures Fields(xs) == [] || |Join(Fields(xs), d)| + |xs| <= |Join(xs, d)| + |Fields(xs)|
  {
    var left, right := StripSplits(xs[0]);
    FieldsCons(xs);
    hide Strip, Fields;
    if |xs| > 1 {
      PartsAreShorter(xs[1..], d);
    }
    assert |xs[0]| == |left| + |Strip(xs[0])| + |right|;
    if Strip(xs[0]) != "" {
      var part, fs := Strip(xs[0]), Fields(xs[1..]);
      assert ([part] + fs)[1..] == fs;
    }
  }

  /** A text that splits to itself alone and closes its quotes is a field. */
  lemma {:induction false} FieldCriterion(f: string)
    requires Split(f, ',') == Some([f]) && QuotesClosed(f)
    ensures IsField(f, ',')
  {
    var xs := Slices(f, "", ',').value;
    var x := FirstSlice(f, "", ',');
    SlicesRebuild(f, "", ',');
    PartsAreTrimmed(xs);
    PartsAreShorter(xs, ',');
    hide Fields, Slices;
    assert x == "" && f + "" == f;
    forall y: string ensures Whole(f, y, "", ',') {
      ClosedReadsAnywhere(f, y, "", ',');
    }
  }

  // ---------------------------------------------------------------------------
  // Joined fields, rows and tables

  lemma {:induction false} JoinedSlices(ts: seq<string>, d: char)
    requires IsSeparator(d) && forall k :: 0 <= k < |ts| ==> ReadsAnywhere(ts[k], d)
    ensures Slices(Join(ts, d), "", d) == Some(if ts == [] then [""] else ts)
  {
    if ts == [] {
      NoSlices(d);
    } else if |ts| == 1 {
      assert Whole(ts[0], "", "", d) && ts == [ts[0]];
      WholeAlone(ts[0], "", d);
    } else {
      JoinedSlices(ts[1..], d);
      var rest := Join(ts[1..], d);
      assert Whole(ts[0], [d] + rest, "", d);
      WholeThen(ts[0], rest, "", d);
      hide Slices;
      assert [ts[0]] + ts[1..] == ts;
    }
  }

  lemma {:induction false} JoinedFieldsSplit(ts: seq<string>, d: char)
    requires IsSeparator(d) && forall k :: 0 <= k < |ts| ==> IsField(ts[k], d)
    ensures Split(Join(ts, d), d) == Some(ts)
  {
    hide Slices;
    JoinedSlices(ts, d);
    TrimmedPartsAreFields(ts);
    if ts == [] {
      FieldsCons([""]);
      StripKeepsTrimmed("");
    }
  }

  lemma FieldInBraces(t: string, x: string)
    requires ReadsAnywhere(t, ',')
    ensures Runs(t, x, "}", ',') == Some("}")
  {
    assert Whole(t, x, "", ',');
    RunsIsWhole(t, x, "", ',');
    RunsAbove(t, x, "", "}", ',');
    assert "}" + "" == "}";
  }

  lemma CommaInBraces(rest: string, x: string)
    requires Runs(rest, x, "}", ',') == Some("}")
    ensures Runs([','] + rest, x, "}", ',') == Some("}")
  {
    RunsChar(',', rest + x, "}", ',');
    RunsAppend([','], rest, x, "}", ',');
  }

  /** Inside braces the commas between fields are kept. */
  lemma {:induction false} FieldsInBraces(ts: seq<string>, x: string)
    requires forall k :: 0 <= k < |ts| ==> ReadsAnywhere(ts[k], ',')
    ensures Runs(Join(ts, ','), x, "}", ',') == Some("}")
  {
    hide Runs, ReadsAnywhere;
    if ts == [] {
      EmptyRuns(x, "}");
    } else if |ts| == 1 {
      FieldInBraces(ts[0], x);
    } else {
      var t, joined := ts[0], Join(ts[1..], ',');
      assert Join(ts, ',') == t + ([','] + joined);
      FieldsInBraces(ts[1..], x);
      hide Join;
      CommaInBraces(joined, x);
      FieldInBraces(t, [','] + joined + x);
      RunsAppend(t, [','] + joined, x, "}", ',');
    }
  }

  lemma EmptyRuns(x: string, stack: string)
    ensures Runs("", x, stack, ',') == Some(stack)
  {
  }

  lemma RowReadsAnywhere(fields: seq<string>)
    requires forall k :: 0 <= k < |fields| ==> ReadsAnywhere(fields[k], ',')
    ensures ReadsAnywhere(PrintRow(fields), ',')
  {
    var inner := Join(fields, ',');
    forall x: string ensures Whole(PrintRow(fields), x, "", ',') {
      hide Step, TokenLength, Join;
      FieldsInBraces(fields, "}" + x);
      BraceSteps(inner, x);
      RunsAppend(inner, "}", x, "}", ',');
      RunsAppend("{", inner + "}", x, "", ',');
      assert "{" + (inner + "}") == PrintRow(fields);
      RunsIsWhole(PrintRow(fields), x, "", ',');
    }
  }

  lemma BraceSteps(inner: string, x: string)
    ensures Runs("{", (inner + "}") + x, "", ',') == Some("}")
    ensures Runs("}", x, "}", ',') == Some("")
  {
    assert "" + ['}'] == "}" && "}"[..0] == "";
    RunsChar('{', (inner + "}") + x, "", ',');
    RunsChar('}', x, "}", ',');
  }

  ghost predicate IsTable(rows: seq<seq<string>>) {
    forall i, j :: 0 <= i < |rows| && 0 <= j < |rows[i]| ==> IsField(rows[i][j], ',')
  }

  lemma {:induction false} PrintedRowsRead(rows: seq<seq<string>>)
    requires IsTable(rows)
    ensures ReadRows(PrintRows(rows)) == Some(rows)
  {
    hide Split, Join, PrintRows, IsField;
    if rows != [] {
      var row := PrintRow(rows[0]);
      PrintedRowsRead(rows[1..]);
      JoinedFieldsSplit(rows[0], ',');
      PrintRowsCons(rows);
      assert row[1..|row| - 1] == Join(rows[0], ',');
      assert [rows[0]] + rows[1..] == rows;
    }
  }

  lemma PrintRowsCons(rows: seq<seq<string>>)
    requires rows != []
    ensures PrintRows(rows) == [PrintRow(rows[0])] + PrintRows(rows[1..])
  {
    hide Join;
  }

  lemma RowIsField(fields: seq<string>)
    requires forall k :: 0 <= k < |fields| ==> IsField(fields[k], ',')
    ensures IsField(PrintRow(fields), ',')
  {
    RowReadsAnywhere(fields);
  }

  /** Reading the printed body of a table gives the table. */
  lemma {:induction false} PrintedBodyReads(rows: seq<seq<string>>)
    requires IsTable(rows)
    ensures ReadBody(PrintBody(rows)) == Some(rows)
  {
    forall k | 0 <= k < |rows| ensures IsField(PrintRows(rows)[k], ',') {
      RowIsField(rows[k]);
    }
    JoinedFieldsSplit(PrintRows(rows), ',');
    PrintedRowsRead(rows);
  }

  // ---------------------------------------------------------------------------
  // The round trip

  /** No closing brace of the body is followed by whitespace and a semicolon. */
  predicate NoEarlyEnd(body: string) {
    forall k :: 0 <= k < |body| ==> !EndsBody(body, k)
  }

  lemma HeaderMatches(name: string, body: string)
    requires name != "" && IsWord(name[0])
    ensures var s := name + "[] = {" + body; Header(s, 0, name) == Some(|name| + 6)
  {
    var s := name + "[] = {" + body;
    var n := |name|;
    assert s[0..n] == name && s[n..n + 6] == "[] = {";
    assert s[n] == s[n..n + 6][0] && s[n + 1] == s[n..n + 6][1] && s[n + 2] == s[n..n + 6][2];
    assert s[n + 3] == s[n..n + 6][3] && s[n + 4] == s[n..n + 6][4] && s[n + 5] == s[n..n + 6][5];
    assert SkipSpace(s, n) == n && SkipSpace(s, n + 1) == n + 1;
    assert SkipSpace(s, n + 2) == n + 3 && SkipSpace(s, n + 4) == n + 5;
  }

  /** The body of a printed array can end at one of its own braces or at the printed end. */
  lemma EndsBodyShifted(pre: string, body: string, rest: string, k: nat)
    requires k <= |body|
    ensures var s := pre + body + "};" + rest;
            EndsBody(s, |pre| + k) <==> k == |body| || EndsBody(body, k)
  {
    var s := pre + body + "};" + rest;
    if k == |body| {
      assert s[|pre| + k] == '}' && s[|pre| + k + 1] == ';';
    } else {
      var j := SkipSpace(body, k + 1);
      assert s[|pre| + k] == body[k];
      assert s[|pre| + j] == if j < |body| then body[j] else '}';
    }
  }

  /** The body found is the printed one cut at its first early end, if it has one. */
  lemma BodyFound(name: string, body: string, rest: string) returns (k: nat)
    requires name != "" && IsWord(name[0])
    ensures k <= |body| && FindBody(name + "[] = {" + body + "};" + rest, 0, name) == Some(body[..k])
    ensures k == |body| <==> NoEarlyEnd(body)
  {
    var pre := name + "[] = {";
    var s := pre + body + "};" + rest;
    hide Header, EndsBody, BodyEnd, NoEarlyEnd;
    HeaderMatches(name, body + "};" + rest);
    assert s == name + "[] = {" + (body + "};" + rest);
    k := EndFound(pre, body, rest);
  }

  lemma {:induction false} EndFound(pre: string, body: string, rest: string) returns (k: nat)
    ensures var s := pre + body + "};" + rest;
            k <= |body| && BodyEnd(s, |pre|) == Some(|pre| + k) && s[|pre|..|pre| + k] == body[..k]
    ensures k == |body| <==> NoEarlyEnd(body)
  {
    var s := pre + body + "};" + rest;
    EndsBodyShifted(pre, body, rest, |body|);
    var end := BodyEnd(s, |pre|).value;
    k := end - |pre|;
    if k < |body| {
      EndsBodyShifted(pre, body, rest, k);
    }
    forall j | 0 <= j < k ensures !EndsBody(body, j) {
      EndsBodyShifted(pre, body, rest, j);
    }
  }

  lemma {:induction false} RowPrintsShorter(row: string)
    requires IsRow(row) && Split(row[1..|row| - 1], ',').Some?
    ensures |PrintRow(Split(row[1..|row| - 1], ',').value)| <= |row|
  {
    var inner := row[1..|row| - 1];
    PartsAreShorter(Slices(inner, "", ',').value, ',');
    SlicesRebuild(inner, "", ',');
    hide Slices, Fields;
  }

  lemma {:induction false} RowsPrintShorter(rows: seq<string>, table: seq<seq<string>>)
    requires ReadRows(rows) == Some(table)
    ensures |table| == |rows|
    ensures forall k :: 0 <= k < |rows| ==> |PrintRow(table[k])| <= |rows[k]|
  {
    hide Split, PrintRow;
    if rows != [] {
      RowPrintsShorter(rows[0]);
      RowsPrintShorter(rows[1..], ReadRows(rows[1..]).value);
      assert table == [table[0]] + ReadRows(rows[1..]).value;
    }
  }

  lemma {:induction false} JoinShorter(xs: seq<string>, ys: seq<string>, d: char)
    requires |xs| == |ys| && forall k :: 0 <= k < |xs| ==> |xs[k]| <= |ys[k]|
    ensures |Join(xs, d)| <= |Join(ys, d)|
  {
    if |xs| > 1 {
      JoinShorter(xs[1..], ys[1..], d);
    }
  }

  /** A table is printed as the shortest body that reads as the table. */
  lemma {:induction false} PrintedBodyIsShortest(body: string, rows: seq<seq<string>>)
    requires ReadBody(body) == Some(rows)
    ensures |PrintBody(rows)| <= |body|
  {
    var xs := Slices(body, "", ',').value;
    PartsAreShorter(xs, ',');
    SlicesRebuild(body, "", ',');
    hide Slices, Fields, ReadRows;
    RowsPrintShorter(Fields(xs), rows);
    JoinShorter(PrintRows(rows), Fields(xs), ',');
  }

  /** A printed table is read back from the array exactly when no brace in it is
      followed by whitespace and a semicolon. */
  lemma {:induction false} TableRoundTrip(name: string, rows: seq<seq<string>>, rest: string)
    requires name != "" && IsWord(name[0]) && IsTable(rows)
    ensures ReadArray(PrintArray(name, rows) + rest, name) == Some(rows) <==> NoEarlyEnd(PrintBody(rows))
  {
    var body := PrintBody(rows);
    var k := BodyFound(name, body, rest);
    assert PrintArray(name, rows) + rest == name + "[] = {" + body + "};" + rest;
    hide FindBody, PrintBody, ReadBody, NoEarlyEnd;
    if k == |body| {
      assert body[..k] == body;
      PrintedBodyReads(rows);
    } else if ReadBody(body[..k]) == Some(rows) {
      PrintedBodyIsShortest(body[..k], rows);
    }
  }

  /** There are such tables: a string literal may hold what ends the pattern. */
  lemma {:induction false} SomeTableIsCutShort(name: string)
    requires name != "" && IsWord(name[0])
    ensures var rows := [["\"};\""]]; IsTable(rows) && ReadArray(PrintArray(name, rows), name) != Some(rows)
  {
    var field := "\"};\"";
    var rows := [[field]];
    LiteralIsField(field);
    assert IsTable(rows);
    var body := PrintBody(rows);
    assert PrintRow(rows[0]) == "{" + field + "}" && PrintRows(rows) == [PrintRow(rows[0])];
    assert body[2] == '}' && body[3] == ';';
    assert EndsBody(body, 2);
    TableRoundTrip(name, rows, "");
    assert PrintArray(name, rows) + "" == PrintArray(name, rows);
  }

  lemma LiteralIsField(field: string)
    requires |field| > 0 && LiteralLength(field) == Some(|field|)
    ensures IsField(field, ',')
  {
    assert field[0] == field[|field| - 1] by {
      CloseQuoteEndsAtQuote(field[1..], field[0], false);
    }
    forall x: string ensures Whole(field, x, "", ',') {
      assert field + "" == field;
      LiteralReadsAhead(field, "", x);
      assert field[..|field|] == field && field[|field|..] == "";
    }
  }
}
