/** Which literal array of a C text is read, and what its table is, by the text. */
module CArrayFields {
  import opened Options
  import opened Text
  import opened Splitter
  import opened CArray

  /** The code points of digits, letters and the underscore. */
  predicate IsWordCode(n: int) { 48 <= n <= 57 || 65 <= n <= 90 || n == 95 || 97 <= n <= 122 }

  lemma WordByCode(c: char)
    ensures IsWord(c) <==> IsWordCode(c as int)
  {
  }

  /** A word begins or ends here. */
  ghost predicate IsEdge(s: string, i: nat)
    requires i <= |s|
  {
    (i > 0 && IsWordCode(s[i - 1] as int)) != (i < |s| && IsWordCode(s[i] as int))
  }

  /** The name, empty brackets, an equals sign and an opening brace, with whitespace between them. */
  ghost predicate IsHeader(t: string, name: string) {
    exists a: string, b: string, c: string, d: string ::
      AllSpace(a) && AllSpace(b) && AllSpace(c) && AllSpace(d)
      && t == name + (a + ("[" + (b + ("]" + (c + ("=" + (d + "{")))))))
  }

  /** Whitespace and the character. */
  ghost predicate IsNext(t: string, c: char) { exists w: string :: AllSpace(w) && t == w + [c] }

  lemma ExpectByText(s: string, i: nat, c: char, k: nat)
    requires i <= k <= |s| && !IsSpace(c)
    ensures Expect(s, i, c) == Some(k) <==> IsNext(s[i..k], c)
  {
    var j := SkipSpace(s, i);
    if Expect(s, i, c) == Some(k) {
      assert s[i..k] == s[i..j] + [c];
      assert AllSpace(s[i..j]);
    }
    if w: string :| AllSpace(w) && s[i..k] == w + [c] {
      assert s[k - 1] == s[i..k][|w|] == c;
      assert forall n :: i <= n < k - 1 ==> s[n] == s[i..k][n - i] == w[n - i];
      assert j == k - 1;
    }
  }

  /** Where an array ends its body: a brace, whitespace and a semicolon. */
  ghost predicate IsEnd(s: string, k: nat) {
    k < |s| && s[k] == '}' && exists w: string, rest: string :: AllSpace(w) && s[k + 1..] == w + ";" + rest
  }

  lemma EndByText(s: string, k: nat)
    requires k < |s|
    ensures EndsBody(s, k) <==> IsEnd(s, k)
  {
    if EndsBody(s, k) {
      var m := Expect(s, k + 1, ';').value;
      SemicolonIsNoSpace();
      ExpectByText(s, k + 1, ';', m);
      var w: string :| AllSpace(w) && s[k + 1..m] == w + [';'];
      assert s[k + 1..] == s[k + 1..m] + s[m..];
      assert s[k + 1..] == w + ";" + s[m..];
    }
    if IsEnd(s, k) {
      var w: string, rest: string :| AllSpace(w) && s[k + 1..] == w + ";" + rest;
      var m := k + 1 + |w| + 1;
      SemicolonIsNoSpace();
      assert s[k + 1..m] == s[k + 1..][..|w| + 1] == w + [';'];
      ExpectByText(s, k + 1, ';', m);
    }
  }

  lemma SemicolonIsNoSpace()
    ensures !IsSpace(';') && !IsSpace('[') && !IsSpace(']') && !IsSpace('=') && !IsSpace('{')
  {
  }

  /** The header at `h` ends at `k`, and the body at the first end `e` behind it. */
  ghost predicate IsBody(s: string, name: string, body: string, h: nat, k: nat, e: nat) {
    && h <= k <= e < |s| && Header(s, h, name) == Some(k) && IsEnd(s, e) && body == s[k..e]
    && forall j :: k <= j < e ==> !IsEnd(s, j)
  }

  lemma BodyHere(s: string, i: nat, name: string, body: string, k: nat, e: nat)
    requires i <= |s| && (forall j: nat :: j < |s| ==> (EndsBody(s, j) <==> IsEnd(s, j)))
    requires IsBody(s, name, body, i, k, e)
    ensures FindBody(s, i, name) == Some(body)
  {
    hide Header, IsEnd, EndsBody;
    assert BodyEnd(s, k).Some?;
    assert BodyEnd(s, k).value == e;
  }

  lemma BodyFound(s: string, i: nat, name: string) returns (k: nat, e: nat)
    requires i <= |s| && (forall j: nat :: j < |s| ==> (EndsBody(s, j) <==> IsEnd(s, j)))
    requires IsArray(s, i, name)
    ensures FindBody(s, i, name).Some? && IsBody(s, name, FindBody(s, i, name).value, i, k, e)
  {
    ArrayHere(s, i, name);
    HeaderIsForward(s, i, name);
    hide Header, IsEnd, EndsBody;
    k := Header(s, i, name).value;
    e := BodyEnd(s, k).value;
  }

  lemma NoBodyHere(s: string, i: nat, name: string)
    requires i <= |s| && (forall j: nat :: j < |s| ==> (EndsBody(s, j) <==> IsEnd(s, j)))
    requires !IsArray(s, i, name)
    ensures FindBody(s, i, name) == if i == |s| then None else FindBody(s, i + 1, name)
    ensures forall body: string, k: nat, e: nat :: !IsBody(s, name, body, i, k, e)
  {
    ArrayHere(s, i, name);
    hide Header, IsEnd, EndsBody;
  }

  /** No array begins from `i` on before `h`. */
  ghost predicate NoneBefore(s: string, i: nat, h: nat, name: string) {
    forall g: nat :: i <= g < h ==> !IsArray(s, g, name)
  }

  lemma NoneBeforeNext(s: string, i: nat, h: nat, name: string)
    requires i < h
    ensures NoneBefore(s, i, h, name) <==> !IsArray(s, i, name) && NoneBefore(s, i + 1, h, name)
  {
    hide IsArray;
  }

  lemma BodyIsArray(s: string, name: string, body: string, h: nat, k: nat, e: nat)
    requires IsBody(s, name, body, h, k, e)
    ensures IsArray(s, h, name) && h < |s|
  {
    hide Header, IsEnd;
  }

  /** The body is that of the first array from `i` on. */
  ghost predicate IsFirstBody(s: string, i: nat, name: string, body: string) {
    exists h: nat, k: nat, e: nat :: i <= h && IsBody(s, name, body, h, k, e) && NoneBefore(s, i, h, name)
  }

  lemma FirstLater(s: string, i: nat, name: string, body: string)
    requires i <= |s| && !IsArray(s, i, name)
    ensures IsFirstBody(s, i, name, body) <==> i < |s| && IsFirstBody(s, i + 1, name, body)
  {
    hide IsBody, IsArray, NoneBefore;
    forall h: nat, k: nat, e: nat | i <= h && IsBody(s, name, body, h, k, e)
      ensures i < h < |s| && (NoneBefore(s, i, h, name) <==> NoneBefore(s, i + 1, h, name))
    {
      BodyIsArray(s, name, body, h, k, e);
      NoneBeforeNext(s, i, h, name);
    }
  }

  /** The body is found behind the first header that has an end, up to the first such end. */
  lemma {:induction false} BodyByText(s: string, i: nat, name: string, body: string)
    requires i <= |s|
    ensures FindBody(s, i, name) == Some(body) <==> IsFirstBody(s, i, name, body)
    decreases |s| - i
  {
    forall j: nat | j < |s| ensures EndsBody(s, j) <==> IsEnd(s, j) {
      EndByText(s, j);
    }
    hide FindBody, IsFirstBody, IsArray, IsEnd, EndsBody;
    if IsArray(s, i, name) {
      BodyAtFirst(s, i, name, body);
    } else {
      NoBodyHere(s, i, name);
      FirstLater(s, i, name, body);
      if i < |s| {
        BodyByText(s, i + 1, name, body);
      }
    }
  }

  lemma BodyAtFirst(s: string, i: nat, name: string, body: string)
    requires i <= |s| && (forall j: nat :: j < |s| ==> (EndsBody(s, j) <==> IsEnd(s, j)))
    requires IsArray(s, i, name)
    ensures FindBody(s, i, name) == Some(body) <==> IsFirstBody(s, i, name, body)
  {
    hide FindBody, IsBody, IsArray, IsEnd, EndsBody;
    var k, e := BodyFound(s, i, name);
    assert NoneBefore(s, i, i, name);
    if h: nat, k': nat, e': nat :| i <= h && IsBody(s, name, body, h, k', e') && NoneBefore(s, i, h, name) {
      assert h == i;
      BodyHere(s, i, name, body, k', e');
    }
  }

  lemma BodyIsWithin(s: string, name: string, body: string, h: nat, k: nat, e: nat)
    ensures IsBody(s, name, body, h, k, e) ==> h < |s|
  {
  }

  /** A header begins here, and an end follows somewhere. */
  ghost predicate IsArray(s: string, h: nat, name: string) {
    h <= |s| && Header(s, h, name).Some? && exists e: nat :: Header(s, h, name).value <= e < |s| && IsEnd(s, e)
  }

  lemma ArrayHere(s: string, h: nat, name: string)
    requires h <= |s| && forall j: nat :: j < |s| ==> (EndsBody(s, j) <==> IsEnd(s, j))
    ensures IsArray(s, h, name) <==> Header(s, h, name).Some? && BodyEnd(s, Header(s, h, name).value).Some?
  {
    hide Header, IsEnd, EndsBody;
  }

  lemma HeaderIsForward(s: string, i: nat, name: string)
    requires i <= |s|
    ensures Header(s, i, name).Some? ==> i <= Header(s, i, name).value
  {
  }

  /** A header is what is written as one, at an edge of a word. */
  lemma {:induction false} HeaderByText(s: string, i: nat, name: string, k: nat)
    requires i <= k <= |s|
    ensures Header(s, i, name) == Some(k) <==> IsEdge(s, i) && IsHeader(s[i..k], name)
  {
    forall c ensures IsWord(c) <==> IsWordCode(c as int) {
      WordByCode(c);
    }
    hide IsWord, IsWordCode, Expect, IsSpace;
    assert WordBoundary(s, i) <==> IsEdge(s, i);
    if Header(s, i, name) == Some(k) {
      HeaderIsWritten(s, i, name, k);
    }
    if IsEdge(s, i) && IsHeader(s[i..k], name) {
      WrittenIsHeader(s, i, name, k);
    }
  }

  lemma HeaderIsWritten(s: string, i: nat, name: string, k: nat)
    requires i <= k <= |s| && Header(s, i, name) == Some(k)
    ensures IsHeader(s[i..k], name)
  {
    SemicolonIsNoSpace();
    var n := i + |name|;
    var p := Expect(s, n, '[').value;
    var q := Expect(s, p, ']').value;
    var r := Expect(s, q, '=').value;
    ExpectByText(s, n, '[', p);
    ExpectByText(s, p, ']', q);
    ExpectByText(s, q, '=', r);
    ExpectByText(s, r, '{', k);
    hide Expect, IsSpace, AllSpace;
    var a: string :| AllSpace(a) && s[n..p] == a + ['['];
    var b: string :| AllSpace(b) && s[p..q] == b + [']'];
    var c: string :| AllSpace(c) && s[q..r] == c + ['='];
    var d: string :| AllSpace(d) && s[r..k] == d + ['{'];
    FivePieces(s, i, n, p, q, r, k);
    Nested(name, a, b, c, d);
  }

  lemma FivePieces(s: string, i: nat, n: nat, p: nat, q: nat, r: nat, k: nat)
    requires i <= n <= p <= q <= r <= k <= |s|
    ensures s[i..k] == s[i..n] + s[n..p] + s[p..q] + s[q..r] + s[r..k]
  {
    assert s[i..p] == s[i..n] + s[n..p];
    assert s[i..q] == s[i..p] + s[p..q];
    assert s[i..r] == s[i..q] + s[q..r];
    assert s[i..k] == s[i..r] + s[r..k];
  }

  lemma Nested(name: string, a: string, b: string, c: string, d: string)
    ensures name + (a + ['[']) + (b + [']']) + (c + ['=']) + (d + ['{']) ==
            name + (a + ("[" + (b + ("]" + (c + ("=" + (d + "{")))))))
  {
  }

  lemma WrittenIsHeader(s: string, i: nat, name: string, k: nat)
    requires i <= k <= |s| && WordBoundary(s, i) && IsHeader(s[i..k], name)
    ensures Header(s, i, name) == Some(k)
  {
    SemicolonIsNoSpace();
    hide IsSpace, AllSpace, Expect, WordBoundary, IsHeader;
    var a, b, c, d := HeaderParts(s[i..k], name);
    var n := i + |name|;
    var p := n + |a| + 1;
    var q := p + |b| + 1;
    var r := q + |c| + 1;
    Stretches(s, i, k, name, a + ['['], b + [']'], c + ['='], d + ['{']);
    Next(s, n, p, a, '[');
    Next(s, p, q, b, ']');
    Next(s, q, r, c, '=');
    Next(s, r, k, d, '{');
  }

  lemma Next(s: string, i: nat, k: nat, w: string, c: char)
    requires i <= k <= |s| && !IsSpace(c) && AllSpace(w) && s[i..k] == w + [c]
    ensures Expect(s, i, c) == Some(k)
  {
    ExpectByText(s, i, c, k);
  }

  lemma HeaderParts(t: string, name: string) returns (a: string, b: string, c: string, d: string)
    requires IsHeader(t, name)
    ensures AllSpace(a) && AllSpace(b) && AllSpace(c) && AllSpace(d)
    ensures t == name + (a + ['[']) + (b + [']']) + (c + ['=']) + (d + ['{'])
  {
    hide IsSpace, AllSpace;
    a, b, c, d :|
      AllSpace(a) && AllSpace(b) && AllSpace(c) && AllSpace(d)
      && t == name + (a + ("[" + (b + ("]" + (c + ("=" + (d + "{")))))));
    Nested(name, a, b, c, d);
  }

  lemma Stretches(s: string, i: nat, k: nat, name: string, a: string, b: string, c: string, d: string)
    requires i <= k <= |s| && s[i..k] == name + a + b + c + d
    ensures var n := i + |name|; var p := n + |a|; var q := p + |b|; var r := q + |c|;
            r + |d| == k && s[i..n] == name && s[n..p] == a && s[p..q] == b && s[q..r] == c && s[r..k] == d
  {
    var t := s[i..k];
    var n := |name|;
    var p := n + |a|;
    var q := p + |b|;
    var r := q + |c|;
    assert t[..n] == name && t[n..p] == a && t[p..q] == b && t[q..r] == c && t[r..] == d;
    SliceOfSlice(s, i, k, 0, n);
    SliceOfSlice(s, i, k, n, p);
    SliceOfSlice(s, i, k, p, q);
    SliceOfSlice(s, i, k, q, r);
    SliceOfSlice(s, i, k, r, k - i);
    assert t[0..n] == t[..n] && t[r..k - i] == t[r..];
  }

  lemma SliceOfSlice(s: string, i: nat, k: nat, x: nat, y: nat)
    requires i <= k <= |s| && x <= y <= k - i
    ensures s[i..k][x..y] == s[i + x..i + y]
  {
    var t := s[i..k];
    forall n | 0 <= n < y - x ensures t[x..y][n] == s[i + x..i + y][n] {
    }
  }

  /** The rows are the parts of the body, each in braces; a row's fields are the parts between them. */
  lemma {:induction false} RowsByText(rows: seq<string>, table: seq<seq<string>>)
    ensures ReadRows(rows) == Some(table) <==>
              |table| == |rows| && forall k :: 0 <= k < |rows| ==> IsRowOf(rows[k], table[k])
  {
    hide Split;
    if rows != [] {
      if table != [] {
        RowsByText(rows[1..], table[1..]);
        RowByText(rows[0], table[0]);
        assert table == [table[0]] + table[1..];
      }
      if ReadRows(rows) == Some(table) {
        assert table[1..] == ReadRows(rows[1..]).value;
        forall k | 0 <= k < |rows| ensures IsRowOf(rows[k], table[k]) {
          if k > 0 {
            assert rows[k] == rows[1..][k - 1] && table[k] == table[1..][k - 1];
          }
        }
      }
      if |table| == |rows| && forall k :: 0 <= k < |rows| ==> IsRowOf(rows[k], table[k]) {
        forall k | 0 <= k < |rows[1..]| ensures IsRowOf(rows[1..][k], table[1..][k]) {
          assert IsRowOf(rows[k + 1], table[k + 1]);
        }
      }
    }
  }

  ghost predicate IsRowOf(row: string, fields: seq<string>) {
    exists inner: string :: row == "{" + inner + "}" && Split(inner, ',') == Some(fields)
  }

  lemma RowByText(row: string, fields: seq<string>)
    ensures IsRowOf(row, fields) <==> IsRow(row) && Split(row[1..|row| - 1], ',') == Some(fields)
  {
    hide Split;
    if inner: string :| row == "{" + inner + "}" && Split(inner, ',') == Some(fields) {
      assert row[1..|row| - 1] == inner;
    }
    if IsRow(row) {
      assert row == "{" + row[1..|row| - 1] + "}";
    }
  }

  /** The table of a text: the rows of the first array of the name, or nothing. */
  lemma {:induction false} ArrayByText(text: string, name: string, table: seq<seq<string>>)
    ensures ReadArray(text, name) == Some(table) <==>
              exists body: string ::
                && IsFirstBody(text, 0, name, body) && Split(body, ',').Some?
                && var rows := Split(body, ',').value;
                   |table| == |rows| && forall k :: 0 <= k < |rows| ==> IsRowOf(rows[k], table[k])
  {
    forall body: string ensures FindBody(text, 0, name) == Some(body) <==> IsFirstBody(text, 0, name, body) {
      BodyByText(text, 0, name, body);
    }
    hide Split, FindBody, IsFirstBody, ReadRows, IsRowOf;
    if FindBody(text, 0, name).Some? && Split(FindBody(text, 0, name).value, ',').Some? {
      RowsByText(Split(FindBody(text, 0, name).value, ',').value, table);
    }
  }
}
