/** The normal form in which two XML documents are compared: callbacks append to one string. */
module CanonicalXml {
  import opened Ordering

  type Attribute = (string, string)

  /** The callbacks of the markup parser, in document order. */
  datatype Event = Start(name: string, attrs: seq<Attribute>) | End(name: string) | Chars(text: string)

  // ---------------------------------------------------------------------------
  // Escaping (g_markup_escape_text)

  predicate IsControl(c: char) {
    || '\U{1}' <= c <= '\U{8}' || '\U{b}' <= c <= '\U{c}' || '\U{e}' <= c <= '\U{1f}'
    || '\U{7f}' <= c <= '\U{84}' || '\U{86}' <= c <= '\U{9f}'
  }

  function HexDigit(n: nat): (c: char)
    requires n < 16
    ensures c as int == if n < 10 then 48 + n else 87 + n
  {
    "0123456789abcdef"[n]
  }

  function EscapeChar(c: char): (code: string)
    ensures code != ""
  {
    if c == '&' then "&amp;"
    else if c == '<' then "&lt;"
    else if c == '>' then "&gt;"
    else if c == '\'' then "&apos;"
    else if c == '"' then "&quot;"
    else if IsControl(c) then
      var n := c as int;
      "&#x" + (if n < 16 then [HexDigit(n)] else [HexDigit(n / 16), HexDigit(n % 16)]) + ";"
    else [c]
  }

  function Escape(s: string): string {
    if s == "" then "" else EscapeChar(s[0]) + Escape(s[1..])
  }

  // ---------------------------------------------------------------------------
  // Rendering

  /** g_ascii_isspace */
  predicate IsAsciiSpace(c: char) { c == ' ' || c == '\t' || c == '\n' || c == '\r' || c == '\U{c}' }

  predicate IsBlank(s: string) { forall k :: 0 <= k < |s| ==> IsAsciiSpace(s[k]) }

  function Pair(a: Attribute): string { " " + Escape(a.0) + "=\"" + Escape(a.1) + "\"" }

  function Pairs(attrs: seq<Attribute>): (r: seq<string>)
    ensures |r| == |attrs| && forall k :: 0 <= k < |r| ==> r[k] == Pair(attrs[k])
  {
    seq(|attrs|, k requires 0 <= k < |attrs| => Pair(attrs[k]))
  }

  function Concat(ss: seq<string>): string {
    if ss == [] then "" else ss[0] + Concat(ss[1..])
  }

  function RenderEvent(e: Event): string {
    match e
    case Start(name, attrs) => "<" + name + Concat(Sort(Pairs(attrs))) + ">"
    case End(name) => "</" + name + ">"
    case Chars(text) => if IsBlank(text) then "" else Escape(text)
  }

  function Render(es: seq<Event>): string {
    if es == [] then "" else RenderEvent(es[0]) + Render(es[1..])
  }

  lemma {:induction false} RenderAppend(es: seq<Event>, e: Event)
    ensures Render(es + [e]) == Render(es) + RenderEvent(e)
  {
    hide RenderEvent;
    if es == [] {
      assert es + [e] == [e] && [e][1..] == [] && Render([]) == "";
      assert RenderEvent(e) + "" == RenderEvent(e) == "" + RenderEvent(e);
    } else {
      assert (es + [e])[1..] == es[1..] + [e];
      RenderAppend(es[1..], e);
    }
  }

  lemma {:induction false} ConcatAppend(ss: seq<string>, s: string)
    ensures Concat(ss + [s]) == Concat(ss) + s
  {
    if ss == [] {
      assert ss + [s] == [s] && [s][1..] == [];
    } else {
      assert (ss + [s])[1..] == ss[1..] + [s];
      ConcatAppend(ss[1..], s);
    }
  }

  /** The string the callbacks share. */
  class Normalizer {
    var output: string

    constructor ()
      ensures output == ""
    {
      output := "";
    }

    method AppendAll(strings: array<string>)
      modifies this
      ensures output == old(output) + Concat(strings[..]) && strings[..] == old(strings[..])
    {
      var k := 0;
      assert strings[..0] == [] && output + Concat([]) == output;
      while k < strings.Length
        invariant 0 <= k <= strings.Length && strings[..] == old(strings[..])
        invariant output == old(output) + Concat(strings[..k])
      {
        ConcatAppend(strings[..k], strings[k]);
        assert strings[..k + 1] == strings[..k] + [strings[k]];
        output := output + strings[k];
        k := k + 1;
      }
      assert strings[..k] == strings[..];
    }

    method XmlStart(name: string, attrs: seq<Attribute>)
      modifies this
      ensures output == old(output) + RenderEvent(Start(name, attrs))
    {
      hide Sort, Pair, Concat;
      output := output + "<" + name;
      var sorted := new string[|attrs|](k requires 0 <= k < |attrs| => Pair(attrs[k]));
      assert sorted[..] == Pairs(attrs);
      ExchangeSort(sorted);
      AppendAll(sorted);
      output := output + ">";
      TagAppended(old(output), name, Concat(Sort(Pairs(attrs))));
    }

    method XmlEnd(name: string)
      modifies this
      ensures output == old(output) + RenderEvent(End(name))
    {
      output := output + "</" + name + ">";
    }

    method XmlText(text: string)
      modifies this
      ensures output == old(output) + RenderEvent(Chars(text))
    {
      var whitespace := true;
      for i := 0 to |text|
        invariant whitespace <==> forall k :: 0 <= k < i ==> IsAsciiSpace(text[k])
      {
        whitespace := whitespace && IsAsciiSpace(text[i]);
      }
      if !whitespace {
        output := output + Escape(text);
      }
    }
  }

  lemma TagAppended(output: string, name: string, pairs: string)
    ensures output + "<" + name + pairs + ">" == output + ("<" + name + pairs + ">")
  {
  }

  /** Feeding the callbacks in order yields the rendering of the event stream. */
  method XmlNormalized(events: seq<Event>) returns (output: string)
    ensures output == Render(events)
  {
    hide RenderEvent;
    var normalizer := new Normalizer();
    for i := 0 to |events|
      invariant normalizer.output == Render(events[..i])
    {
      RenderAppend(events[..i], events[i]);
      assert events[..i + 1] == events[..i] + [events[i]];
      match events[i] {
        case Start(name, attrs) => normalizer.XmlStart(name, attrs);
        case End(name) => normalizer.XmlEnd(name);
        case Chars(text) => normalizer.XmlText(text);
      }
    }
    assert events[..|events|] == events;
    output := normalizer.output;
  }
}
