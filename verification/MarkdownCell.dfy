/** Table cells: Markdown and HTML syntax written as character references. */
module MarkdownCell {
  import opened Options
  import opened ConsoleText

  /** The characters with a meaning in Markdown. */
  predicate IsSyntax(c: char) {
    || c == '\\' || c == '`' || c == '*' || c == '_' || c == '{' || c == '}' || c == '[' || c == ']'
    || c == '(' || c == ')' || c == '#' || c == '+' || c == '.' || c == '!' || c == '|' || c == '~'
    || c == ':' || c == '/' || c == '@' || c == '-'
  }

  function Digit(d: nat): char requires d < 10 { ('0' as int + d) as char }

  function Digits(n: nat): (s: string)
    ensures s != "" && forall k :: 0 <= k < |s| ==> '0' <= s[k] <= '9'
  {
    if n < 10 then [Digit(n)] else Digits(n / 10) + [Digit(n % 10)]
  }

  /** HTML escaping without quotes. */
  function Escaped(s: string): string {
    if s == "" then ""
    else (if s[0] == '&' then "&amp;" else if s[0] == '<' then "&lt;" else if s[0] == '>' then "&gt;" else [s[0]])
         + Escaped(s[1..])
  }

  /** Markdown syntax as numeric references. */
  function Referenced(s: string): string {
    if s == "" then ""
    else (if IsSyntax(s[0]) then "&#" + Digits(s[0] as int) + ";" else [s[0]]) + Referenced(s[1..])
  }

  function Cell(t: string, other: char -> bool): string { Referenced(Escaped(SafeText(t, 240, other))) }

  // ---------------------------------------------------------------------------
  // Reading references

  function Number(s: string): nat
    requires forall k :: 0 <= k < |s| ==> '0' <= s[k] <= '9'
  {
    if s == "" then 0 else Number(s[..|s| - 1]) * 10 + (s[|s| - 1] as int - '0' as int)
  }

  predicate IsNumber(s: string) { s != "" && forall k :: 0 <= k < |s| ==> '0' <= s[k] <= '9' }

  function Named(name: string): Option<char> {
    if name == "amp" then Some('&') else if name == "lt" then Some('<') else if name == "gt" then Some('>')
    else if name != "" && name[0] == '#' && IsNumber(name[1..]) && Number(name[1..]) < 0xD800
    then Some(Number(name[1..]) as char)
    else None
  }

  /** The first semicolon, or the end. */
  function Semicolon(s: string): (n: nat)
    ensures n <= |s| && (n < |s| ==> s[n] == ';')
  {
    if s == "" || s[0] == ';' then 0 else 1 + Semicolon(s[1..])
  }

  function Decode(s: string): string
    decreases |s|
  {
    if s == "" then ""
    else
      var n := Semicolon(s);
      if s[0] == '&' && 1 <= n < |s| && Named(s[1..n]).Some?
      then [Named(s[1..n]).value] + Decode(s[n + 1..])
      else [s[0]] + Decode(s[1..])
  }

  // ---------------------------------------------------------------------------
  // Laws

  function Encoded(c: char): string {
    if c == '&' then "&amp;" else if c == '<' then "&lt;" else if c == '>' then "&gt;"
    else if IsSyntax(c) then "&#" + Digits(c as int) + ";"
    else [c]
  }

  function EncodedAll(s: string): string { if s == "" then "" else Encoded(s[0]) + EncodedAll(s[1..]) }

  lemma {:induction false} ReferencedAppend(a: string, b: string)
    ensures Referenced(a + b) == Referenced(a) + Referenced(b)
  {
    hide Digits, IsSyntax;
    if a == "" {
      assert a + b == b;
    } else {
      assert (a + b)[1..] == a[1..] + b;
      ReferencedAppend(a[1..], b);
    }
  }

  lemma {:induction false} Unreferenced(s: string)
    requires forall k :: 0 <= k < |s| ==> !IsSyntax(s[k])
    ensures Referenced(s) == s
  {
    hide IsSyntax, Digits;
    if s != "" {
      Unreferenced(s[1..]);
      assert s == [s[0]] + s[1..];
    }
  }

  lemma ReferencedOne(c: char)
    requires IsSyntax(c)
    ensures Referenced([c]) == "&#" + Digits(c as int) + ";"
  {
    hide Digits, IsSyntax;
    assert [c][1..] == "";
  }

  /** The two passes do not interfere: each character is encoded on its own. */
  lemma {:induction false} PassesAreIndependent(s: string)
    ensures Referenced(Escaped(s)) == EncodedAll(s)
  {
    hide Digits, Referenced, IsSyntax, Encoded;
    if s == "" {
      Unreferenced("");
    } else {
      var head :=
        if s[0] == '&' then "&amp;" else if s[0] == '<' then "&lt;" else if s[0] == '>' then "&gt;" else [s[0]];
      PassesAreIndependent(s[1..]);
      ReferencedAppend(head, Escaped(s[1..]));
      HeadEncoded(s[0], head);
    }
  }

  lemma HeadEncoded(c: char, head: string)
    requires head == if c == '&' then "&amp;" else if c == '<' then "&lt;" else if c == '>' then "&gt;" else [c]
    ensures Referenced(head) == Encoded(c)
  {
    hide Digits, Referenced, IsSyntax;
    OrdinaryCharacters(c);
    if IsSyntax(c) {
      ReferencedOne(c);
    } else {
      forall k | 0 <= k < |head| ensures !IsSyntax(head[k]) {
        OrdinaryCharacters(head[k]);
      }
      Unreferenced(head);
    }
  }

  lemma {:induction false} NumberOfDigits(n: nat)
    ensures Number(Digits(n)) == n
  {
    if n < 10 {
      assert [Digit(n)][..0] == "";
    } else {
      NumberOfDigits(n / 10);
      assert Digits(n)[..|Digits(n)| - 1] == Digits(n / 10);
    }
  }

  lemma {:induction false} SemicolonOf(a: string, b: string)
    requires forall k :: 0 <= k < |a| ==> a[k] != ';'
    ensures Semicolon(a + ";" + b) == |a|
  {
    if a == "" {
      assert (a + ";" + b)[0] == ';';
    } else {
      SemicolonOf(a[1..], b);
      assert (a + ";" + b)[1..] == a[1..] + ";" + b;
    }
  }

  lemma DecodeReference(name: string, rest: string)
    requires Named(name).Some? && forall k :: 0 <= k < |name| ==> name[k] != ';'
    ensures Decode("&" + name + ";" + rest) == [Named(name).value] + Decode(rest)
  {
    hide Named;
    var s := "&" + name + ";" + rest;
    SemicolonOf("&" + name, rest);
    assert s[1..|name| + 1] == name && s[|name| + 2..] == rest;
  }

  lemma NumericName(d: string, n: nat)
    requires IsNumber(d) && Number(d) == n < 0xD800
    ensures Named("#" + d) == Some(n as char)
  {
    hide Number;
    var name := "#" + d;
    assert name[0] == '#' && name[1..] == d;
  }

  lemma ShortNames()
    ensures Named("amp") == Some('&') && Named("lt") == Some('<') && Named("gt") == Some('>')
    ensures "&amp;" == "&" + "amp" + ";" && "&lt;" == "&" + "lt" + ";" && "&gt;" == "&" + "gt" + ";"
  {
    hide IsNumber, Number;
  }

  /** The name between the ampersand and the semicolon, for an encoded character. */
  lemma EncodedName(c: char) returns (name: string)
    requires Encoded(c) != [c]
    ensures Encoded(c) == "&" + name + ";" && Named(name) == Some(c) && forall k :: 0 <= k < |name| ==> name[k] != ';'
  {
    hide Digits, IsSyntax, Number, Named;
    ShortNames();
    if c == '&' {
      name := "amp";
    } else if c == '<' {
      name := "lt";
    } else if c == '>' {
      name := "gt";
    } else {
      OrdinaryCharacters(c);
      NumberOfDigits(c as int);
      NumericName(Digits(c as int), c as int);
      name := "#" + Digits(c as int);
    }
  }

  lemma DecodeEncoded(c: char, rest: string)
    ensures Decode(Encoded(c) + rest) == [c] + Decode(rest)
  {
    hide Decode, Encoded, Named;
    if Encoded(c) == [c] {
      Unencoded(c);
      DecodePlain(c, rest);
    } else {
      var name := EncodedName(c);
      DecodeReference(name, rest);
    }
  }

  lemma Unencoded(c: char)
    requires Encoded(c) == [c]
    ensures c != '&'
  {
  }

  lemma DecodePlain(c: char, rest: string)
    requires c != '&'
    ensures Decode([c] + rest) == [c] + Decode(rest)
  {
    hide Named;
    assert ([c] + rest)[1..] == rest;
  }

  lemma {:induction false} DecodeEncodedAll(s: string)
    ensures Decode(EncodedAll(s)) == s
  {
    hide Decode, Encoded;
    if s == "" {
      DecodeNothing();
    } else {
      DecodeEncodedAll(s[1..]);
      DecodeEncoded(s[0], EncodedAll(s[1..]));
      assert s == [s[0]] + s[1..];
    }
  }

  lemma DecodeNothing()
    ensures Decode("") == ""
  {
  }

  /** A reader of the cell sees exactly the safe text. */
  lemma {:induction false} CellShowsSafeText(t: string, other: char -> bool)
    ensures Decode(Cell(t, other)) == SafeText(t, 240, other)
  {
    PassesAreIndependent(SafeText(t, 240, other));
    DecodeEncodedAll(SafeText(t, 240, other));
  }

  /** No Markdown or HTML syntax but that of references, and no control character. */
  predicate Inert(s: string) {
    forall k :: 0 <= k < |s| ==> InertAt(s, k)
  }

  predicate InertAt(s: string, k: nat)
    requires k < |s|
  {
    && (IsSyntax(s[k]) ==> s[k] == '#' && k > 0 && s[k - 1] == '&')
    && s[k] != '<' && s[k] != '>' && !IsControl(s[k])
  }

  lemma OrdinaryCharacters(c: char)
    ensures c == '&' || c == ';' || c == '<' || c == '>' || '0' <= c <= '9' || 'a' <= c <= 'z' ==> !IsSyntax(c)
    ensures IsSyntax(c) ==> ' ' < c < '\U{7f}'
    ensures IsSyntax('|') && IsSyntax('#')
  {
  }

  lemma EncodedIsInert(c: char)
    requires !IsControl(c)
    ensures Inert(Encoded(c)) && Encoded(c) != "" && Encoded(c)[0] != '#'
  {
    hide Digits, IsSyntax;
    OrdinaryCharacters(c);
    if IsSyntax(c) {
      ReferenceIsInert(Digits(c as int));
      OrdinaryCharacters('&');
    } else {
      var s := Encoded(c);
      forall k | 0 <= k < |s| ensures InertAt(s, k) {
        OrdinaryCharacters(s[k]);
      }
    }
  }

  lemma ReferenceIsInert(d: string)
    requires forall k :: 0 <= k < |d| ==> '0' <= d[k] <= '9'
    ensures Inert("&#" + d + ";")
  {
    hide IsSyntax;
    var s := "&#" + d + ";";
    forall k | 0 <= k < |s| ensures InertAt(s, k) {
      OrdinaryCharacters(s[k]);
      if 2 <= k < |s| - 1 { assert s[k] == d[k - 2]; }
    }
  }

  lemma InertAppend(a: string, b: string)
    requires Inert(a) && Inert(b)
    ensures Inert(a + b)
  {
    hide IsSyntax;
    var s := a + b;
    forall k | 0 <= k < |s| ensures InertAt(s, k) {
      if k < |a| {
        assert InertAt(a, k);
      } else {
        assert s[k] == b[k - |a|] && InertAt(b, k - |a|);
      }
    }
  }

  lemma {:induction false} EncodedAllIsInert(s: string)
    requires forall k :: 0 <= k < |s| ==> !IsControl(s[k])
    ensures Inert(EncodedAll(s))
  {
    hide Inert, Encoded;
    if s == "" {
      NothingIsInert();
    } else {
      EncodedAllIsInert(s[1..]);
      EncodedIsInert(s[0]);
      InertAppend(Encoded(s[0]), EncodedAll(s[1..]));
    }
  }

  lemma NothingIsInert()
    ensures Inert("")
  {
  }

  /** No text can end its cell, its row or its table: the cell is one line without a vertical
      bar or any other active character. */
  lemma {:induction false} CellIsInert(t: string, other: char -> bool)
    requires Categories(other)
    ensures Inert(Cell(t, other)) && '|' !in Cell(t, other) && '\n' !in Cell(t, other)
  {
    hide SafeText, Referenced, Escaped, IsSyntax, Inert, InertAt;
    OneLine(t, 240, other);
    PassesAreIndependent(SafeText(t, 240, other));
    EncodedAllIsInert(SafeText(t, 240, other));
    InertCharacters(Cell(t, other));
  }

  lemma InertCharacters(s: string)
    requires Inert(s)
    ensures '|' !in s && '\n' !in s
  {
    forall k | 0 <= k < |s| ensures s[k] != '|' && s[k] != '\n' {
      assert InertAt(s, k);
    }
  }
}
