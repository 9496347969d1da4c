/** The normal form is canonical and unambiguous. */
module CanonicalXmlLaws {
  import opened Ordering
  import opened CanonicalXml

  // ---------------------------------------------------------------------------
  // What the markup parser guarantees of names

  predicate IsNameChar(c: char) {
    && c != '<' && c != '>' && c != '/' && c != '=' && c != '&' && c != '"' && c != '\''
    && !IsAsciiSpace(c) && !IsControl(c)
  }

  predicate IsName(s: string) { s != "" && forall k :: 0 <= k < |s| ==> IsNameChar(s[k]) }

  predicate NamesOk(attrs: seq<Attribute>) { forall a :: a in attrs ==> IsName(a.0) }

  predicate IsParsed(es: seq<Event>) {
    forall k :: 0 <= k < |es| ==>
      match es[k]
      case Start(name, attrs) => IsName(name) && NamesOk(attrs)
      case End(name) => IsName(name)
      case Chars(_) => true
  }

  // ---------------------------------------------------------------------------
  // The normal form of an event stream

  datatype Node<+A> = Open(name: string, attrs: A) | Close(name: string) | Data(text: string)

  const WHITESPACE := {' ', '\t', '\n', '\r', '\U{c}'}

  /** Some character of the text is not whitespace. */
  predicate Says(text: string) { exists k :: 0 <= k < |text| && text[k] !in WHITESPACE }

  lemma SaysUnlessBlank(text: string)
    ensures Says(text) <==> !IsBlank(text)
  {
  }

  /** Whitespace-only text dropped, adjacent text merged. */
  function Merged(es: seq<Event>): seq<Node<seq<Attribute>>> {
    if es == [] then []
    else
      var rest := Merged(es[1..]);
      match es[0]
      case Start(name, attrs) => [Open(name, attrs)] + rest
      case End(name) => [Close(name)] + rest
      case Chars(text) =>
        if !Says(text) then rest
        else if rest != [] && rest[0].Data? then [Data(text + rest[0].text)] + rest[1..]
        else [Data(text)] + rest
  }

  function Unordered(n: Node<seq<Attribute>>): Node<multiset<Attribute>> {
    match n
    case Open(name, attrs) => Open(name, multiset(attrs))
    case Close(name) => Close(name)
    case Data(text) => Data(text)
  }

  /** The content of a document: attribute order does not count. */
  function Content(es: seq<Event>): seq<Node<multiset<Attribute>>> {
    var ns := Merged(es);
    seq(|ns|, k requires 0 <= k < |ns| => Unordered(ns[k]))
  }

  function Ordered(n: Node<seq<Attribute>>): Node<seq<string>> {
    match n
    case Open(name, attrs) => Open(name, Sort(Pairs(attrs)))
    case Close(name) => Close(name)
    case Data(text) => Data(text)
  }

  function Show(n: Node<seq<string>>): string {
    match n
    case Open(name, pairs) => "<" + name + Concat(pairs) + ">"
    case Close(name) => "</" + name + ">"
    case Data(text) => Escape(text)
  }

  function ShowAll(ns: seq<Node<seq<Attribute>>>): string {
    if ns == [] then "" else Show(Ordered(ns[0])) + ShowAll(ns[1..])
  }

  // ---------------------------------------------------------------------------
  // Rendering shows the merged nodes

  lemma {:induction false} EscapeAppend(a: string, b: string)
    ensures Escape(a + b) == Escape(a) + Escape(b)
  {
    hide EscapeChar;
    if a == "" {
      assert a + b == b;
    } else {
      assert (a + b)[1..] == a[1..] + b;
      EscapeAppend(a[1..], b);
    }
  }

  lemma ShowCons(n: Node<seq<Attribute>>, ns: seq<Node<seq<Attribute>>>)
    ensures ShowAll([n] + ns) == Show(Ordered(n)) + ShowAll(ns)
  {
    hide Show, Ordered;
    assert ([n] + ns)[1..] == ns;
  }

  lemma {:induction false} RenderShowsMerged(es: seq<Event>)
    ensures Render(es) == ShowAll(Merged(es))
  {
    hide Sort, Pairs, Concat, Escape, IsBlank, Says, ShowAll;
    if es == [] {
      ShowNothing();
    } else {
      var rest := Merged(es[1..]);
      RenderShowsMerged(es[1..]);
      match es[0]
      case Start(name, attrs) => ShowCons(Open(name, attrs), rest);
      case End(name) => ShowCons(Close(name), rest);
      case Chars(text) =>
        SaysUnlessBlank(text);
        if !Says(text) {
          assert "" + Render(es[1..]) == Render(es[1..]);
        } else if rest != [] && rest[0].Data? {
          EscapeAppend(text, rest[0].text);
          assert rest == [rest[0]] + rest[1..];
          ShowCons(rest[0], rest[1..]);
          ShowCons(Data(text + rest[0].text), rest[1..]);
        } else {
          ShowCons(Data(text), rest);
        }
    }
  }

  lemma ShowNothing()
    ensures ShowAll([]) == ""
  {
  }

  // ---------------------------------------------------------------------------
  // The escaping is decodable

  predicate IsSpecial(c: char) { |EscapeChar(c)| > 1 }

  lemma HexInjective(m: nat, n: nat)
    requires m < 16 && n < 16 && HexDigit(m) == HexDigit(n)
    ensures m == n
  {
  }

  lemma CodeInjective(c: char, d: char)
    requires EscapeChar(c) == EscapeChar(d)
    ensures c == d
  {
    if IsSpecial(c) {
      var u, w := EscapeChar(c), EscapeChar(d);
      assert u[1] == w[1] && u[2] == w[2];
      if u[1] == '#' {
        var m, n := c as int, d as int;
        assert |u| == if m < 16 then 5 else 6;
        assert |w| == if n < 16 then 5 else 6;
        assert u[3] == w[3];
        if m < 16 {
          HexInjective(m, n);
        } else {
          assert u[4] == w[4];
          HexInjective(m / 16, n / 16);
          HexInjective(m % 16, n % 16);
        }
      }
    }
  }

  /** Two codes that start the same text are the same code. */
  lemma CodeIsPrefixFree(c: char, d: char, x: string, y: string)
    requires EscapeChar(c) + x == EscapeChar(d) + y
    ensures c == d && x == y
  {
    var u, w := EscapeChar(c), EscapeChar(d);
    var s, t := u + x, w + y;
    assert s[0] == u[0] && t[0] == w[0];
    hide EscapeChar;
    if IsSpecial(c) && IsSpecial(d) {
      assert forall k :: 0 <= k < |u| ==> s[k] == u[k];
      assert forall k :: 0 <= k < |w| ==> t[k] == w[k];
      assert s[|u| - 1] == ';' && t[|w| - 1] == ';';
      assert |u| == |w|;
    }
    assert s[..|u|] == u && t[..|w|] == w;
    CodeInjective(c, d);
    assert s[|u|..] == x && t[|w|..] == y;
  }

  /** A text that no escaped character starts: nothing, a tag or a closing quote. */
  predicate Stops(x: string) { x == "" || x[0] == '<' || x[0] == '"' }

  lemma EscapeHead(a: string, x: string)
    requires a != ""
    ensures Escape(a) + x == EscapeChar(a[0]) + (Escape(a[1..]) + x)
  {
    hide EscapeChar;
  }

  lemma {:induction false} EscapeSplits(a: string, b: string, x: string, y: string)
    requires Escape(a) + x == Escape(b) + y && Stops(x) && Stops(y)
    ensures a == b && x == y
  {
    hide Escape, EscapeChar;
    EscapeStarts(a, x);
    EscapeStarts(b, y);
    if a != "" && b != "" {
      EscapeHead(a, x);
      EscapeHead(b, y);
      CodeIsPrefixFree(a[0], b[0], Escape(a[1..]) + x, Escape(b[1..]) + y);
      EscapeSplits(a[1..], b[1..], x, y);
      assert a == [a[0]] + a[1..] && b == [b[0]] + b[1..];
    }
  }

  lemma EscapeStarts(a: string, x: string)
    requires Stops(x)
    ensures a == "" ==> Escape(a) + x == x
    ensures a != "" ==> !Stops(Escape(a) + x)
  {
    if a != "" {
      assert (Escape(a) + x)[0] == EscapeChar(a[0])[0];
    }
  }

  // ---------------------------------------------------------------------------
  // Names, attributes and tags are decodable

  lemma NameSplits(a: string, b: string, x: string, y: string)
    requires IsName(a) && IsName(b) && a + x == b + y
    requires x != "" && y != "" && !IsNameChar(x[0]) && !IsNameChar(y[0])
    ensures a == b && x == y
  {
    hide IsNameChar;
    var s := a + x;
    assert s[|a|] == x[0] && (b + y)[|b|] == y[0];
    assert forall k :: 0 <= k < |a| ==> s[k] == a[k];
    assert forall k :: 0 <= k < |b| ==> (b + y)[k] == b[k];
    assert |a| == |b|;
    assert s[..|a|] == a && (b + y)[..|b|] == b && s[|a|..] == x && (b + y)[|b|..] == y;
  }

  lemma {:induction false} NameIsUnescaped(a: string)
    requires forall k :: 0 <= k < |a| ==> IsNameChar(a[k])
    ensures Escape(a) == a
  {
    if a != "" {
      assert IsNameChar(a[0]) && EscapeChar(a[0]) == [a[0]];
      NameIsUnescaped(a[1..]);
    }
  }

  /** An attribute string ends itself: what follows it is determined. */
  lemma PairSplits(a: Attribute, b: Attribute, x: string, y: string)
    requires IsName(a.0) && IsName(b.0) && Pair(a) + x == Pair(b) + y
    ensures a == b && x == y
  {
    NameIsUnescaped(a.0);
    NameIsUnescaped(b.0);
    hide Escape, IsName;
    var v, w := Escape(a.1) + ("\"" + x), Escape(b.1) + ("\"" + y);
    PairShape(a, x);
    PairShape(b, y);
    var s, t := " " + (a.0 + ("=\"" + v)), " " + (b.0 + ("=\"" + w));
    assert s[1..] == a.0 + ("=\"" + v) && t[1..] == b.0 + ("=\"" + w);
    NameSplits(a.0, b.0, "=\"" + v, "=\"" + w);
    assert ("=\"" + v)[2..] == v && ("=\"" + w)[2..] == w;
    EscapeSplits(a.1, b.1, "\"" + x, "\"" + y);
    assert ("\"" + x)[1..] == x && ("\"" + y)[1..] == y;
  }

  lemma PairShape(a: Attribute, x: string)
    requires Escape(a.0) == a.0
    ensures Pair(a) + x == " " + (a.0 + ("=\"" + (Escape(a.1) + ("\"" + x))))
  {
    hide Escape;
  }

  ghost predicate IsPair(s: string) { exists a: Attribute :: IsName(a.0) && s == Pair(a) }

  /** Every string of the list is an attribute string. */
  ghost predicate ArePairs(ss: seq<string>) { forall k :: 0 <= k < |ss| ==> IsPair(ss[k]) }

  lemma PairListHead(ss: seq<string>, x: string)
    requires ss != []
    ensures Concat(ss) + x == ss[0] + (Concat(ss[1..]) + x)
  {
  }

  lemma {:induction false} PairListSplits(ss: seq<string>, ts: seq<string>, x: string, y: string)
    requires ArePairs(ss) && ArePairs(ts) && Concat(ss) + (">" + x) == Concat(ts) + (">" + y)
    ensures ss == ts && x == y
  {
    hide Concat, Pair, IsNameChar;
    PairListStarts(ss, x);
    PairListStarts(ts, y);
    if ss == [] || ts == [] {
      assert (">" + x)[1..] == x && (">" + y)[1..] == y;
    } else {
      PairListHead(ss, ">" + x);
      PairListHead(ts, ">" + y);
      assert IsPair(ss[0]);
      var a: Attribute :| IsName(a.0) && ss[0] == Pair(a);
      assert IsPair(ts[0]);
      var b: Attribute :| IsName(b.0) && ts[0] == Pair(b);
      PairSplits(a, b, Concat(ss[1..]) + (">" + x), Concat(ts[1..]) + (">" + y));
      PairListSplits(ss[1..], ts[1..], x, y);
      assert ss == [ss[0]] + ss[1..] && ts == [ts[0]] + ts[1..];
    }
  }

  /** What follows a tag name: a space before the first attribute, or the closing bracket. */
  lemma PairListStarts(ss: seq<string>, x: string)
    requires ArePairs(ss)
    ensures var s := Concat(ss) + (">" + x);
            s[0] == (if ss == [] then '>' else ' ') && !IsNameChar(s[0])
    ensures ss == [] ==> Concat(ss) + (">" + x) == ">" + x
  {
    if ss != [] {
      assert IsPair(ss[0]);
      var a: Attribute :| IsName(a.0) && ss[0] == Pair(a);
      assert (Concat(ss) + (">" + x))[0] == Pair(a)[0] == ' ';
    }
  }

  lemma SortedPairsArePairs(attrs: seq<Attribute>)
    requires NamesOk(attrs)
    ensures ArePairs(Sort(Pairs(attrs)))
  {
    hide Sort, Pair, IsName;
    var ss, ps := Sort(Pairs(attrs)), Pairs(attrs);
    SortSorts(ps);
    forall k | 0 <= k < |ss| ensures IsPair(ss[k]) {
      assert ss[k] in multiset(ps);
      var j :| 0 <= j < |ps| && ps[j] == ss[k];
      assert attrs[j] in attrs && IsName(attrs[j].0);
    }
  }

  // ---------------------------------------------------------------------------
  // Nodes are decodable

  predicate NodeOk(n: Node<seq<Attribute>>) {
    match n
    case Open(name, attrs) => IsName(name) && NamesOk(attrs)
    case Close(name) => IsName(name)
    case Data(text) => text != ""
  }

  /** No two adjacent text nodes. */
  predicate NodesOk(ns: seq<Node<seq<Attribute>>>) {
    && (forall k :: 0 <= k < |ns| ==> NodeOk(ns[k]))
    && (forall k :: 0 < k < |ns| ==> !(ns[k - 1].Data? && ns[k].Data?))
  }

  lemma {:induction false} MergedIsOk(es: seq<Event>)
    requires IsParsed(es)
    ensures NodesOk(Merged(es))
  {
    hide IsName, NamesOk;
    if es != [] {
      MergedIsOk(es[1..]);
    }
  }

  predicate AtTag(x: string) { x == "" || x[0] == '<' }

  lemma OpenSplits(a: string, b: string, ss: seq<string>, ts: seq<string>, x: string, y: string)
    requires IsName(a) && IsName(b) && ArePairs(ss) && ArePairs(ts)
    requires ("<" + a + Concat(ss) + ">") + x == ("<" + b + Concat(ts) + ">") + y
    ensures a == b && ss == ts && x == y
  {
    hide Concat, IsName, ArePairs;
    var v, w := Concat(ss) + (">" + x), Concat(ts) + (">" + y);
    PairListStarts(ss, x);
    PairListStarts(ts, y);
    assert ("<" + a + Concat(ss) + ">") + x == "<" + (a + v);
    assert ("<" + b + Concat(ts) + ">") + y == "<" + (b + w);
    assert ("<" + (a + v))[1..] == a + v && ("<" + (b + w))[1..] == b + w;
    NameSplits(a, b, v, w);
    PairListSplits(ss, ts, x, y);
  }

  lemma CloseSplits(a: string, b: string, x: string, y: string)
    requires IsName(a) && IsName(b) && ("</" + a + ">") + x == ("</" + b + ">") + y
    ensures a == b && x == y
  {
    hide IsName;
    var v, w := ">" + x, ">" + y;
    assert ("</" + a + ">") + x == "</" + (a + v) && ("</" + b + ">") + y == "</" + (b + w);
    assert ("</" + (a + v))[2..] == a + v && ("</" + (b + w))[2..] == b + w;
    NameSplits(a, b, v, w);
    assert v[1..] == x && w[1..] == y;
  }

  /** The kind of the first node shows in the first two characters. */
  lemma NodeStarts(n: Node<seq<Attribute>>, x: string)
    requires NodeOk(n) && (n.Data? ==> AtTag(x))
    ensures var s := Show(Ordered(n)) + x;
            && (n.Data? <==> !Stops(s))
            && (!n.Data? ==> |s| > 1 && s[0] == '<' && (n.Close? <==> s[1] == '/'))
  {
    hide Escape, Concat, Sort, Pairs, NamesOk;
    var s := Show(Ordered(n)) + x;
    match n
    case Open(name, attrs) => assert s[1] == name[0] && IsNameChar(name[0]);
    case Close(name) => assert s[1] == '/';
    case Data(text) => EscapeStarts(text, x);
  }

  lemma NodeSplits(m: Node<seq<Attribute>>, n: Node<seq<Attribute>>, x: string, y: string)
    requires NodeOk(m) && NodeOk(n) && (m.Data? ==> AtTag(x)) && (n.Data? ==> AtTag(y))
    requires Show(Ordered(m)) + x == Show(Ordered(n)) + y
    ensures Ordered(m) == Ordered(n) && x == y
  {
    NodeStarts(m, x);
    NodeStarts(n, y);
    hide Escape, Concat, Sort, Pairs, NamesOk, IsName, ArePairs;
    match m
    case Open(name, attrs) =>
      SortedPairsArePairs(attrs);
      SortedPairsArePairs(n.attrs);
      OpenSplits(name, n.name, Sort(Pairs(attrs)), Sort(Pairs(n.attrs)), x, y);
    case Close(name) => CloseSplits(name, n.name, x, y);
    case Data(text) => EscapeSplits(text, n.text, x, y);
  }

  lemma ShowHead(ns: seq<Node<seq<Attribute>>>)
    requires NodesOk(ns) && ns != []
    ensures ShowAll(ns) == Show(Ordered(ns[0])) + ShowAll(ns[1..]) && ShowAll(ns) != ""
    ensures ns[0].Data? <==> !Stops(ShowAll(ns))
    ensures AtTag(ShowAll(ns)) || ns[0].Data?
    decreases ns
  {
    hide Show, Ordered, NodeOk;
    if |ns| > 1 {
      ShowHead(ns[1..]);
    } else {
      ShowNothing();
      assert ns[1..] == [];
    }
    NodeStarts(ns[0], ShowAll(ns[1..]));
  }

  lemma {:induction false} ShowAllSplits(ms: seq<Node<seq<Attribute>>>, ns: seq<Node<seq<Attribute>>>)
    requires NodesOk(ms) && NodesOk(ns) && ShowAll(ms) == ShowAll(ns)
    ensures |ms| == |ns| && forall k :: 0 <= k < |ms| ==> Ordered(ms[k]) == Ordered(ns[k])
  {
    hide Show, Ordered, NodeOk, ShowAll, Stops;
    ShowNothing();
    if ms != [] {
      ShowHead(ms);
    }
    if ns != [] {
      ShowHead(ns);
    }
    if ms != [] && ns != [] {
      TailAtTag(ms);
      TailAtTag(ns);
      FirstNodeSplits(ms, ns);
      ShowAllSplits(ms[1..], ns[1..]);
      forall k | 0 <= k < |ms| ensures Ordered(ms[k]) == Ordered(ns[k]) {
        if k > 0 {
          assert ms[k] == ms[1..][k - 1] && ns[k] == ns[1..][k - 1];
        }
      }
    }
  }

  lemma TailAtTag(ns: seq<Node<seq<Attribute>>>)
    requires NodesOk(ns) && ns != []
    ensures ns[0].Data? ==> AtTag(ShowAll(ns[1..]))
  {
    hide NodeOk, ShowAll;
    if |ns| > 1 {
      ShowHead(ns[1..]);
    } else {
      ShowNothing();
      assert ns[1..] == [];
    }
  }

  lemma {:induction false} FirstNodeSplits(ms: seq<Node<seq<Attribute>>>, ns: seq<Node<seq<Attribute>>>)
    requires NodesOk(ms) && NodesOk(ns) && ms != [] && ns != []
    requires ms[0].Data? ==> AtTag(ShowAll(ms[1..]))
    requires ns[0].Data? ==> AtTag(ShowAll(ns[1..]))
    requires ShowAll(ms) == ShowAll(ns)
    ensures Ordered(ms[0]) == Ordered(ns[0]) && ShowAll(ms[1..]) == ShowAll(ns[1..])
  {
    ShowHead(ms);
    ShowHead(ns);
    hide Show, Ordered, ShowAll, NodeOk;
    assert NodeOk(ms[0]) && NodeOk(ns[0]);
    NodeSplits(ms[0], ns[0], ShowAll(ms[1..]), ShowAll(ns[1..]));
  }

  // ---------------------------------------------------------------------------
  // Attribute order

  function Count<T(==)>(s: seq<T>, x: T): nat {
    if s == [] then 0 else (if s[0] == x then 1 else 0) + Count(s[1..], x)
  }

  lemma {:induction false} CountIsMultiplicity<T>(s: seq<T>, x: T)
    ensures Count(s, x) == multiset(s)[x]
  {
    if s != [] {
      CountIsMultiplicity(s[1..], x);
      assert s == [s[0]] + s[1..];
    }
  }

  lemma {:induction false} CountPairs(attrs: seq<Attribute>, a: Attribute)
    requires NamesOk(attrs) && IsName(a.0)
    ensures Count(Pairs(attrs), Pair(a)) == Count(attrs, a)
  {
    hide Pair, IsName;
    if attrs != [] {
      assert Pairs(attrs)[1..] == Pairs(attrs[1..]);
      assert attrs[0] in attrs;
      if Pair(attrs[0]) == Pair(a) {
        PairSplits(attrs[0], a, "", "");
      }
      CountPairs(attrs[1..], a);
    }
  }

  lemma PairMultiplicity(attrs: seq<Attribute>, a: Attribute)
    requires NamesOk(attrs) && IsName(a.0)
    ensures multiset(Pairs(attrs))[Pair(a)] == multiset(attrs)[a]
  {
    CountPairs(attrs, a);
    CountIsMultiplicity(Pairs(attrs), Pair(a));
    CountIsMultiplicity(attrs, a);
  }

  /** The attribute strings are the same up to order exactly if the attributes are. */
  lemma {:induction false} PairsUpToOrder(a: seq<Attribute>, b: seq<Attribute>)
    requires NamesOk(a) && NamesOk(b)
    ensures multiset(Pairs(a)) == multiset(Pairs(b)) <==> multiset(a) == multiset(b)
  {
    hide Pair, IsName;
    if multiset(Pairs(a)) == multiset(Pairs(b)) {
      forall x: Attribute ensures multiset(a)[x] == multiset(b)[x] {
        if x in a || x in b {
          PairMultiplicity(a, x);
          PairMultiplicity(b, x);
        }
      }
    }
    if multiset(a) == multiset(b) {
      forall s: string ensures multiset(Pairs(a))[s] == multiset(Pairs(b))[s] {
        if s in Pairs(a) {
          var k :| 0 <= k < |a| && Pairs(a)[k] == s;
          assert a[k] in a;
          PairMultiplicity(a, a[k]);
          PairMultiplicity(b, a[k]);
        } else if s in Pairs(b) {
          var k :| 0 <= k < |b| && Pairs(b)[k] == s;
          assert b[k] in b;
          PairMultiplicity(a, b[k]);
          PairMultiplicity(b, b[k]);
        }
      }
    }
  }

  lemma NodeUpToOrder(m: Node<seq<Attribute>>, n: Node<seq<Attribute>>)
    requires NodeOk(m) && NodeOk(n)
    ensures Ordered(m) == Ordered(n) <==> Unordered(m) == Unordered(n)
  {
    hide Sort, Pairs;
    if m.Open? && n.Open? {
      PairsUpToOrder(m.attrs, n.attrs);
      SortIsCanonical(Pairs(m.attrs), Pairs(n.attrs));
    }
  }

  lemma {:induction false} SameNodesShowSame(ms: seq<Node<seq<Attribute>>>, ns: seq<Node<seq<Attribute>>>)
    requires |ms| == |ns| && forall k :: 0 <= k < |ms| ==> Ordered(ms[k]) == Ordered(ns[k])
    ensures ShowAll(ms) == ShowAll(ns)
  {
    hide Show, Ordered;
    if ms != [] {
      SameNodesShowSame(ms[1..], ns[1..]);
    }
  }

  /** Two event streams normalise to the same string exactly when they have the same
      content: equal after reordering attributes within each element, dropping
      whitespace-only text and merging adjacent text. */
  lemma {:induction false} NormalFormIsCanonical(a: seq<Event>, b: seq<Event>)
    requires IsParsed(a) && IsParsed(b)
    ensures Render(a) == Render(b) <==> Content(a) == Content(b)
  {
    var ms, ns := Merged(a), Merged(b);
    RenderShowsMerged(a);
    RenderShowsMerged(b);
    MergedIsOk(a);
    MergedIsOk(b);
    hide Ordered, Unordered, NodeOk, ShowAll, Merged, Render, IsParsed;
    if Render(a) == Render(b) {
      ShowAllSplits(ms, ns);
      forall k | 0 <= k < |ms| ensures Unordered(ms[k]) == Unordered(ns[k]) {
        NodeUpToOrder(ms[k], ns[k]);
      }
      assert Content(a) == Content(b);
    }
    if Content(a) == Content(b) {
      assert |ms| == |Content(a)| == |ns|;
      forall k | 0 <= k < |ms| ensures Ordered(ms[k]) == Ordered(ns[k]) {
        assert Unordered(ms[k]) == Content(a)[k] == Unordered(ns[k]);
        NodeUpToOrder(ms[k], ns[k]);
      }
      SameNodesShowSame(ms, ns);
    }
  }

  // ---------------------------------------------------------------------------
  // Text in its place

  lemma {:induction false} RenderOf(a: seq<Event>, b: seq<Event>)
    ensures Render(a + b) == Render(a) + Render(b)
  {
    hide RenderEvent;
    if a == [] {
      assert a + b == b && "" + Render(b) == Render(b);
    } else {
      assert (a + b)[1..] == a[1..] + b;
      RenderOf(a[1..], b);
    }
  }

  lemma RenderAround(before: seq<Event>, text: string, after: seq<Event>)
    ensures Render(before + [Chars(text)] + after) == Render(before) + RenderEvent(Chars(text)) + Render(after)
  {
    hide Render, RenderEvent;
    RenderOf(before + [Chars(text)], after);
    RenderAppend(before, Chars(text));
  }

  lemma EscapedIsSomething(text: string)
    requires Says(text)
    ensures Escape(text) != ""
  {
    hide EscapeChar;
  }

  /** A text changes the normal form exactly if it says something, wherever it stands. */
  lemma {:induction false} OnlyBlankTextIsDropped(before: seq<Event>, text: string, after: seq<Event>)
    ensures Render(before + [Chars(text)] + after) == Render(before + after) <==>
              forall k :: 0 <= k < |text| ==> text[k] in WHITESPACE
  {
    SaysUnlessBlank(text);
    RenderAround(before, text, after);
    RenderOf(before, after);
    hide Render, IsBlank, Escape;
    if Says(text) {
      EscapedIsSomething(text);
      assert |Render(before + [Chars(text)] + after)| > |Render(before + after)|;
    } else {
      assert Render(before) + "" == Render(before);
      forall k | 0 <= k < |text| ensures text[k] in WHITESPACE {
      }
    }
  }

  /** Texts that say something are kept apart in the normal form, wherever they stand. */
  lemma {:induction false} TextIsKept(before: seq<Event>, s: string, t: string, after: seq<Event>)
    requires Says(s) && Says(t)
    ensures Render(before + [Chars(s)] + after) == Render(before + [Chars(t)] + after) <==> s == t
  {
    SaysUnlessBlank(s);
    SaysUnlessBlank(t);
    RenderAround(before, s, after);
    RenderAround(before, t, after);
    hide Render, IsBlank, Escape, Says;
    if Render(before + [Chars(s)] + after) == Render(before + [Chars(t)] + after) {
      Cancelled(Render(before), Escape(s), Escape(t), Render(after));
      assert Escape(s) + "" == Escape(s) && Escape(t) + "" == Escape(t);
      EscapeSplits(s, t, "", "");
    }
  }

  lemma Cancelled(x: string, s: string, t: string, y: string)
    requires x + s + y == x + t + y
    ensures s == t
  {
    assert |s| == |t|;
    assert (x + s + y)[|x|..|x| + |s|] == s && (x + t + y)[|x|..|x| + |t|] == t;
  }

  // ---------------------------------------------------------------------------
  // The form itself

  /** The code points that are written as references. */
  predicate IsReferred(n: int) { 1 <= n <= 8 || 11 <= n <= 12 || 14 <= n <= 31 || 127 <= n <= 132 || 134 <= n <= 159 }

  function DigitValue(c: char): int {
    if '0' <= c <= '9' then c as int - 48 else if 'a' <= c <= 'f' then c as int - 87 else -1
  }

  /** The value of one or two hexadecimal digits without a leading zero. */
  function HexValue(s: string): int {
    if |s| == 1 then DigitValue(s[0])
    else if |s| == 2 && s[0] != '0' then 16 * DigitValue(s[0]) + DigitValue(s[1])
    else -1
  }

  /** Markup and quotation marks have their names, control characters are references to their code points
      in hexadecimal digits, and every other character stands for itself. */
  lemma {:induction false} EscapeByTable(c: char)
    ensures c == '&' ==> EscapeChar(c) == "&amp;"
    ensures c == '<' ==> EscapeChar(c) == "&lt;"
    ensures c == '>' ==> EscapeChar(c) == "&gt;"
    ensures c == '\'' ==> EscapeChar(c) == "&apos;"
    ensures c == '"' ==> EscapeChar(c) == "&quot;"
    ensures IsReferred(c as int) ==>
              exists digits: string :: EscapeChar(c) == "&#x" + digits + ";" && HexValue(digits) == c as int
    ensures c !in "&<>'\"" && !IsReferred(c as int) ==> EscapeChar(c) == [c]
  {
    if IsReferred(c as int) {
      var n := c as int;
      var digits := if n < 16 then [HexDigit(n)] else [HexDigit(n / 16), HexDigit(n % 16)];
      assert IsControl(c);
      assert EscapeChar(c) == "&#x" + digits + ";";
      DigitIsValue(n % 16);
      DigitIsValue(n / 16);
      assert n < 16 ==> n % 16 == n;
    }
  }

  lemma DigitIsValue(n: nat)
    requires n < 16
    ensures DigitValue(HexDigit(n)) == n && (n > 0 ==> HexDigit(n) != '0')
  {
  }

  /** A start tag is written with its attributes in the order of their texts, an end tag with its name. */
  lemma {:induction false} TagsByText(name: string, attrs: seq<Attribute>) returns (pairs: seq<string>)
    ensures Sorted(pairs)
    ensures multiset(pairs) == multiset(seq(|attrs|, k requires 0 <= k < |attrs| =>
                                                " " + Escape(attrs[k].0) + "=\"" + Escape(attrs[k].1) + "\""))
    ensures RenderEvent(Start(name, attrs)) == "<" + name + Concat(pairs) + ">"
    ensures RenderEvent(End(name)) == "</" + name + ">"
  {
    pairs := Sort(Pairs(attrs));
    SortSorts(Pairs(attrs));
    var texts := seq(|attrs|, k requires 0 <= k < |attrs| =>
                                " " + Escape(attrs[k].0) + "=\"" + Escape(attrs[k].1) + "\"");
    assert texts == Pairs(attrs);
  }
}
