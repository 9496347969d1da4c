/** The expander on mutable elements: every include and entity placeholder of a parsed
    tree is taken out of its parent's child list and the referenced elements, shared
    and not copied, are inserted in its place. Parents are processed in document order
    over a snapshot of the elements, and the children of each from the last to the
    first, so that the positions of the earlier ones stay as they were. */
module XmlExpansion {
  import opened Options
  import opened Sequences
  import opened XmlDocuments

  class XmlNode {
    var head: Head
    var origin: Path
    var children: seq<XmlNode>

    constructor (head: Head, origin: Path, children: seq<XmlNode>)
      ensures this.head == head && this.origin == origin && this.children == children
    {
      this.head, this.origin, this.children := head, origin, children;
    }

    /** Removes the first occurrence of the child, by identity. */
    method Remove(child: XmlNode)
      requires child in children
      modifies this`children
      ensures children == WithoutNode(old(children), child)
    {
      children := WithoutNode(children, child);
    }

    method Insert(index: nat, child: XmlNode)
      requires index <= |children|
      modifies this`children
      ensures children == old(children)[..index] + [child] + old(children)[index..]
    {
      children := children[..index] + [child] + children[index..];
    }
  }

  function WithoutNode(s: seq<XmlNode>, x: XmlNode): seq<XmlNode>
    requires x in s
  {
    if s[0] == x then s[1..] else [s[0]] + WithoutNode(s[1..], x)
  }

  lemma {:induction false} WithoutFirst(a: seq<XmlNode>, x: XmlNode, b: seq<XmlNode>)
    requires x !in a
    ensures x in a + [x] + b && WithoutNode(a + [x] + b, x) == a + b
  {
    var s := a + [x] + b;
    assert s[|a|] == x;
    if a == [] {
      assert s == [x] + b && s[1..] == b && a + b == b;
    } else {
      assert s[0] == a[0] && s[1..] == a[1..] + [x] + b;
      WithoutFirst(a[1..], x, b);
      assert a + b == [a[0]] + (a[1..] + b);
    }
  }

  /** The remove and insert calls for one reference; entries go in last first. */
  method ReplaceChild(parent: XmlNode, index: nat, entries: seq<XmlNode>, ghost before: seq<XmlNode>, child: XmlNode,
                      ghost after: seq<XmlNode>)
    requires index == |before| && child !in before && parent.children == before + [child] + after
    modifies parent`children
    ensures parent.children == before + entries + after
  {
    WithoutFirst(before, child, after);
    parent.Remove(child);
    var k := |entries|;
    assert entries[k..] + after == after;
    while k > 0
      invariant k <= |entries| && parent.children == before + (entries[k..] + after)
    {
      k := k - 1;
      InsertBetween(before, entries[k], entries[k + 1..] + after);
      parent.Insert(index, entries[k]);
      Suffix(entries, k, after);
    }
    assert entries[0..] == entries;
    assert before + (entries + after) == before + entries + after;
  }

  lemma Suffix(entries: seq<XmlNode>, k: nat, after: seq<XmlNode>)
    requires k < |entries|
    ensures entries[k..] + after == [entries[k]] + (entries[k + 1..] + after)
  {
    assert entries[k..] == [entries[k]] + entries[k + 1..];
  }

  lemma InsertBetween(a: seq<XmlNode>, x: XmlNode, b: seq<XmlNode>)
    ensures (a + b)[..|a|] + [x] + (a + b)[|a|..] == a + ([x] + b)
  {
    assert (a + b)[..|a|] == a && (a + b)[|a|..] == b;
  }

  // ---------------------------------------------------------------------------
  // Elements that show a tree

  /** Unfolding `e` inside the region gives `t`; elements may be shared. */
  ghost predicate Shows(e: XmlNode, t: Tree, region: set<XmlNode>)
    reads region
    decreases t
  {
    && e in region
    && e.head == t.head && e.origin == t.origin && |e.children| == |t.children|
    && forall i :: 0 <= i < |t.children| ==> Shows(e.children[i], t.children[i], region)
  }

  ghost predicate ShowAll(es: seq<XmlNode>, ts: seq<Tree>, region: set<XmlNode>)
    reads region
  {
    |es| == |ts| && forall i :: 0 <= i < |ts| ==> Shows(es[i], ts[i], region)
  }

  lemma {:induction false} ShowsMore(e: XmlNode, t: Tree, region: set<XmlNode>, more: set<XmlNode>)
    requires Shows(e, t, region) && region <= more
    ensures Shows(e, t, more)
    decreases t
  {
    forall i | 0 <= i < |t.children| ensures Shows(e.children[i], t.children[i], more) {
      ShowsMore(e.children[i], t.children[i], region, more);
    }
  }

  lemma ShowAllMore(es: seq<XmlNode>, ts: seq<Tree>, region: set<XmlNode>, more: set<XmlNode>)
    requires ShowAll(es, ts, region) && region <= more
    ensures ShowAll(es, ts, more)
  {
    hide Shows;
    forall i | 0 <= i < |ts| ensures Shows(es[i], ts[i], more) {
      ShowsMore(es[i], ts[i], region, more);
    }
  }

  lemma {:induction false} ElementsOfAppend(ts: seq<Tree>, t: Tree)
    ensures ElementsOf(ts + [t]) == ElementsOf(ts) + Elements(t)
  {
    hide Elements;
    if ts == [] {
      assert ts + [t] == [t] && [t][1..] == [] && ElementsOf([]) == [];
      assert ElementsOf([t]) == Elements(t) + ElementsOf([]);
    } else {
      assert (ts + [t])[1..] == ts[1..] + [t];
      ElementsOfAppend(ts[1..], t);
    }
  }

  lemma ElementsSplit(t: Tree)
    ensures Elements(t) == [t] + ElementsOf(t.children) && ElementsOf([]) == []
  {
  }

  /** Document order of the elements. */
  method Iterate(e: XmlNode, ghost t: Tree, ghost region: set<XmlNode>) returns (es: seq<XmlNode>)
    requires Shows(e, t, region)
    ensures ShowAll(es, Elements(t), region)
    decreases t
  {
    hide Elements, ElementsOf;
    var below: seq<XmlNode> := [];
    ElementsSplit(t);
    assert t.children[..0] == [];
    for i := 0 to |e.children|
      invariant ShowAll(below, ElementsOf(t.children[..i]), region)
    {
      assert Shows(e.children[i], t.children[i], region);
      var more := Iterate(e.children[i], t.children[i], region);
      ElementsOfAppend(t.children[..i], t.children[i]);
      assert t.children[..i + 1] == t.children[..i] + [t.children[i]];
      below := below + more;
    }
    assert t.children[..|e.children|] == t.children;
    es := [e] + below;
  }

  // ---------------------------------------------------------------------------
  // Parsing

  /** What each freshly parsed element was parsed from, and its first child list. */
  datatype Parsed = Parsed(raw: map<XmlNode, Raw>, kids: map<XmlNode, seq<XmlNode>>)

  ghost predicate KidsOk(p: Parsed, y: XmlNode) {
    && y in p.raw && y in p.kids
    && |p.kids[y]| == |p.raw[y].children| && Distinct(p.kids[y])
    && forall i :: 0 <= i < |p.kids[y]| ==>
         p.kids[y][i] in p.raw && p.raw[p.kids[y][i]] == p.raw[y].children[i]
  }

  ghost predicate ParseOk(p: Parsed) { p.raw.Keys == p.kids.Keys && forall y :: y in p.raw ==> KidsOk(p, y) }

  ghost predicate Labelled(p: Parsed, path: Path, y: XmlNode)
    requires y in p.raw
    reads y
  {
    y.head == p.raw[y].head && y.origin == path
  }

  /** The elements are those parsed, each once, in document order. */
  ghost predicate InOrder(es: seq<XmlNode>, raws: seq<Raw>, p: Parsed) {
    && |es| == |raws| && Distinct(es)
    && (forall k :: 0 <= k < |es| ==> es[k] in p.raw && p.raw[es[k]] == raws[k])
    && forall y :: y in p.raw ==> y in es
  }

  /** The disjoint union of the parses of two siblings. */
  function Union(p: Parsed, q: Parsed): Parsed { Parsed(p.raw + q.raw, p.kids + q.kids) }

  lemma UnionOk(p: Parsed, q: Parsed)
    requires ParseOk(p) && ParseOk(q) && p.raw.Keys !! q.raw.Keys
    ensures ParseOk(Union(p, q))
    ensures forall y :: y in p.raw ==> Union(p, q).raw[y] == p.raw[y] && Union(p, q).kids[y] == p.kids[y]
    ensures forall y :: y in q.raw ==> Union(p, q).raw[y] == q.raw[y] && Union(p, q).kids[y] == q.kids[y]
  {
    var u := Union(p, q);
    hide Distinct;
    forall y | y in u.raw ensures KidsOk(u, y) {
      if y in p.raw {
        assert KidsOk(p, y);
      } else {
        assert KidsOk(q, y);
      }
    }
  }

  lemma UnionInOrder(es: seq<XmlNode>, fs: seq<XmlNode>, r: seq<Raw>, s: seq<Raw>, p: Parsed, q: Parsed)
    requires InOrder(es, r, p) && InOrder(fs, s, q) && p.raw.Keys !! q.raw.Keys
    ensures InOrder(es + fs, r + s, Union(p, q))
  {
    var u, gs := Union(p, q), es + fs;
    forall k | 0 <= k < |gs| ensures gs[k] in u.raw && u.raw[gs[k]] == (r + s)[k] {
    }
    forall i, j | 0 <= i < j < |gs| ensures gs[i] != gs[j] {
    }
  }

  /** Parsing builds new elements only, and marks each with the document it is written in. */
  method Parse(raw: Raw, path: Path) returns (e: XmlNode, elements: seq<XmlNode>, ghost p: Parsed)
    ensures fresh(p.raw.Keys) && ParseOk(p) && InOrder(elements, RawElements(raw), p)
    ensures e in p.raw && p.raw[e] == raw
    ensures forall y :: y in p.raw ==> Labelled(p, path, y) && y.children == p.kids[y]
    decreases raw
  {
    var kids: seq<XmlNode>;
    var below: seq<XmlNode>;
    ghost var q: Parsed;
    kids, below, q := ParseAll(raw.children, path);
    e := new XmlNode(raw.head, path, kids);
    elements := [e] + below;
    p := Parsed(q.raw[e := raw], q.kids[e := kids]);
    hide Distinct, RawElements;
    assert e !in q.raw;
    RootOk(q, e, raw, kids);
    RootInOrder(q, e, raw, kids, below);
  }

  lemma RootOk(q: Parsed, e: XmlNode, raw: Raw, kids: seq<XmlNode>)
    requires ParseOk(q) && e !in q.raw && |kids| == |raw.children| && Distinct(kids)
    requires forall k :: 0 <= k < |kids| ==> kids[k] in q.raw && q.raw[kids[k]] == raw.children[k]
    ensures ParseOk(Parsed(q.raw[e := raw], q.kids[e := kids]))
  {
    var p := Parsed(q.raw[e := raw], q.kids[e := kids]);
    hide Distinct;
    forall y | y in p.raw ensures KidsOk(p, y) {
      if y != e {
        assert KidsOk(q, y);
      }
    }
  }

  lemma RootInOrder(q: Parsed, e: XmlNode, raw: Raw, kids: seq<XmlNode>, below: seq<XmlNode>)
    requires InOrder(below, RawElementsOf(raw.children), q) && e !in q.raw
    ensures InOrder([e] + below, RawElements(raw), Parsed(q.raw[e := raw], q.kids[e := kids]))
  {
    hide RawElementsOf;
    var es := [e] + below;
    forall i, j | 0 <= i < j < |es| ensures es[i] != es[j] {
    }
  }

  method ParseAll(raws: seq<Raw>, path: Path) returns (kids: seq<XmlNode>, elements: seq<XmlNode>, ghost p: Parsed)
    ensures fresh(p.raw.Keys) && ParseOk(p) && InOrder(elements, RawElementsOf(raws), p)
    ensures |kids| == |raws| && Distinct(kids)
    ensures forall k :: 0 <= k < |kids| ==> kids[k] in p.raw && p.raw[kids[k]] == raws[k]
    ensures forall y :: y in p.raw ==> Labelled(p, path, y) && y.children == p.kids[y]
    decreases raws
  {
    if raws == [] {
      kids, elements, p := [], [], Parsed(map[], map[]);
    } else {
      var first: XmlNode;
      var firstElements: seq<XmlNode>;
      var restKids: seq<XmlNode>;
      var restElements: seq<XmlNode>;
      ghost var q: Parsed;
      ghost var r: Parsed;
      first, firstElements, q := Parse(raws[0], path);
      restKids, restElements, r := ParseAll(raws[1..], path);
      assert q.raw.Keys !! r.raw.Keys;
      kids, elements, p := [first] + restKids, firstElements + restElements, Union(q, r);
      hide RawElements, InOrder, ParseOk, Distinct, Union;
      UnionOk(q, r);
      UnionInOrder(firstElements, restElements, RawElements(raws[0]), RawElementsOf(raws[1..]), q, r);
      Siblings(q, r, raws, first, restKids);
      forall y | y in p.raw ensures Labelled(p, path, y) && y.children == p.kids[y] {
        if y in q.raw {
          assert Labelled(q, path, y);
        } else {
          assert Labelled(r, path, y);
        }
      }
    }
  }

  lemma Siblings(q: Parsed, r: Parsed, raws: seq<Raw>, first: XmlNode, rest: seq<XmlNode>)
    requires ParseOk(q) && ParseOk(r) && q.raw.Keys !! r.raw.Keys
    requires |raws| == |rest| + 1 && first in q.raw && q.raw[first] == raws[0] && Distinct(rest)
    requires forall k :: 0 <= k < |rest| ==> rest[k] in r.raw && r.raw[rest[k]] == raws[1..][k]
    ensures var p, kids := Union(q, r), [first] + rest;
            && p.raw.Keys == p.kids.Keys == q.raw.Keys + r.raw.Keys && Distinct(kids)
            && forall k :: 0 <= k < |kids| ==> kids[k] in p.raw && p.raw[kids[k]] == raws[k]
  {
    hide KidsOk;
    var p, kids := Union(q, r), [first] + rest;
    forall k | 0 <= k < |kids| ensures kids[k] in p.raw && p.raw[kids[k]] == raws[k] {
      if k > 0 {
        assert kids[k] == rest[k - 1] && raws[k] == raws[1..][k - 1];
      }
    }
  }

  // ---------------------------------------------------------------------------
  // Splicing one child list

  ghost predicate EntitiesShow(entities: map<string, XmlNode>, env: map<string, Tree>, region: set<XmlNode>)
    reads region
  {
    && entities.Keys == env.Keys
    && forall name :: name in env ==> Shows(entities[name], env[name], region)
  }

  /** The elements `es` that stand for child `c` after splicing: itself, or the
      elements that its reference is replaced by. */
  ghost predicate StandsFor(w: World, env: map<string, Tree>, ancestors: set<Path>,
                            c: XmlNode, tag: Tag, es: seq<XmlNode>, region: set<XmlNode>)
    reads region
  {
    if tag.Element? then es == [c]
    else
      var r := Replacement(w, env, ancestors, tag);
      r.Some? && ShowAll(es, r.value, region)
  }

  function Flatten(ess: seq<seq<XmlNode>>): seq<XmlNode> {
    if ess == [] then [] else ess[0] + Flatten(ess[1..])
  }

  lemma StandsForMore(w: World, env: map<string, Tree>, ancestors: set<Path>,
                      c: XmlNode, tag: Tag, es: seq<XmlNode>, region: set<XmlNode>, more: set<XmlNode>)
    requires StandsFor(w, env, ancestors, c, tag, es, region) && region <= more
    ensures StandsFor(w, env, ancestors, c, tag, es, more)
  {
    hide ShowAll, Replacement;
    if !tag.Element? {
      ShowAllMore(es, Replacement(w, env, ancestors, tag).value, region, more);
    }
  }

  /** The positions of the elements with the given id, found by a loop over the elements. */
  method FilterById(es: seq<XmlNode>, id: string, ghost ts: seq<Tree>, ghost region: set<XmlNode>)
    returns (ks: seq<nat>)
    requires ShowAll(es, ts, region)
    ensures ks == WithId(ts, id, 0)
  {
    ks := [];
    ghost var all := WithId(ts, id, 0);
    assert ts[0..] == ts && [] + all == all;
    for i := 0 to |es|
      invariant all == ks + WithId(ts[i..], id, i)
    {
      assert Shows(es[i], ts[i], region);
      assert ts[i..][1..] == ts[i + 1..];
      if es[i].head.id == Some(id) {
        assert ks + ([i] + WithId(ts[i + 1..], id, i + 1)) == (ks + [i]) + WithId(ts[i + 1..], id, i + 1);
        ks := ks + [i];
      } else {
        assert [] + WithId(ts[i + 1..], id, i + 1) == WithId(ts[i + 1..], id, i + 1);
      }
    }
    assert ts[|es|..] == [] && ks + [] == ks;
  }

  /** The tree an element unfolds to. */
  method Unfold(e: XmlNode, ghost t: Tree, ghost region: set<XmlNode>) returns (r: Tree)
    requires Shows(e, t, region)
    ensures r == t
    decreases t
  {
    var below: seq<Tree> := [];
    for i := 0 to |e.children|
      invariant below == t.children[..i]
    {
      assert Shows(e.children[i], t.children[i], region);
      var child := Unfold(e.children[i], t.children[i], region);
      below := below + [child];
    }
    r := Tree(e.head, e.origin, below);
  }

  /** The positions a pointer selects in an expanded element. */
  method Select(w: World, pointer: Pointer, e: XmlNode, es: seq<XmlNode>, ghost t: Tree, ghost region: set<XmlNode>)
    returns (r: Option<seq<nat>>)
    requires Shows(e, t, region) && ShowAll(es, Elements(t), region)
    ensures r == Selection(w, pointer, t)
  {
    hide Shows;
    match pointer {
      case Whole =>
        r := Some([0]);
      case ById(id) =>
        var ks := FilterById(es, id, Elements(t), region);
        r := if ks == [] then None else Some(ks);
      case Query(q) =>
        var tree := Unfold(e, t, region);
        r := w.find(q, tree);
        if r.Some? && (r.value == [] || exists i :: 0 <= i < |r.value| && r.value[i] >= |es|) {
          r := None;
        }
    }
  }

  /** Expanding the target of an include and selecting elements of it. */
  method Included(w: World, target: Path, pointer: Pointer, ancestors: set<Path>, ghost env: map<string, Tree>)
    returns (r: Option<seq<XmlNode>>, ghost region: set<XmlNode>)
    ensures fresh(region)
    ensures var expected := Replacement(w, env, ancestors, Include(true, Some(target), pointer));
            (r.Some? <==> expected.Some?) && (r.Some? ==> ShowAll(r.value, expected.value, region))
    decreases |w.files.Keys - ancestors|, 1
  {
    var included: Option<XmlNode>;
    included, region := Xml(w, target, ancestors);
    hide Expand, Elements, Shows, Selection;
    if included.None? {
      return None, region;
    }
    ghost var t := Expand(w, target, ancestors).value;
    var es := Iterate(included.value, t, region);
    var ks := Select(w, pointer, included.value, es, t, region);
    if ks.None? {
      return None, region;
    }
    r := Some(Pick(es, ks.value));
  }

  /** One child of a parent whose later children are already spliced. */
  method SpliceChild(w: World, parent: XmlNode, index: nat, kids: seq<XmlNode>, entities: map<string, XmlNode>,
                     ancestors: set<Path>, ghost env: map<string, Tree>, ghost region: set<XmlNode>,
                     ghost after: seq<XmlNode>)
    returns (r: Option<seq<XmlNode>>, ghost grown: set<XmlNode>)
    requires index < |kids| && Distinct(kids) && parent.children == kids[..index + 1] + after
    requires parent !in region && EntitiesShow(entities, env, region)
    modifies parent`children
    ensures region <= grown && fresh(grown - region)
    ensures r.Some? ==> parent.children == kids[..index] + r.value + after
    ensures r.Some? ==> StandsFor(w, env, ancestors, kids[index], kids[index].head.tag, r.value, grown)
    ensures r.None? ==> !kids[index].head.tag.Element? && Replacement(w, env, ancestors, kids[index].head.tag).None?
    decreases |w.files.Keys - ancestors|, 2
  {
    hide Shows, Expand, Selection;
    var child := kids[index];
    assert kids[..index + 1] + after == kids[..index] + [child] + after;
    match child.head.tag {
      case Element(_) =>
        r, grown := Some([child]), region;
      case Entity(name) =>
        if name !in entities {
          return None, region;
        }
        grown := region;
        ReplaceChild(parent, index, [entities[name]], kids[..index], child, after);
        r := Some([entities[name]]);
      case Include(supported, target, pointer) =>
        if !supported || target.None? {
          return None, region;
        }
        ghost var fetched: set<XmlNode>;
        r, fetched := Included(w, target.value, pointer, ancestors, env);
        grown := region + fetched;
        if r.None? {
          return None, grown;
        }
        ShowAllMore(r.value, Replacement(w, env, ancestors, child.head.tag).value, fetched, grown);
        ReplaceChild(parent, index, r.value, kids[..index], child, after);
    }
  }

  /** One parent: its children from the last to the first, each reference replaced. */
  method SpliceChildren(w: World, parent: XmlNode, entities: map<string, XmlNode>, ancestors: set<Path>,
                        ghost env: map<string, Tree>, ghost region: set<XmlNode>)
    returns (ok: bool, ghost reps: seq<seq<XmlNode>>, ghost more: set<XmlNode>)
    requires parent !in region && EntitiesShow(entities, env, region) && Distinct(parent.children)
    modifies parent`children
    ensures region <= more && fresh(more - region)
    ensures ok ==>
      && |reps| == |old(parent.children)| && parent.children == Flatten(reps)
      && forall i :: 0 <= i < |reps| ==>
           StandsFor(w, env, ancestors, old(parent.children)[i], old(parent.children)[i].head.tag, reps[i], more)
    ensures !ok ==> exists c :: c in old(parent.children) && !c.head.tag.Element? &&
                                Replacement(w, env, ancestors, c.head.tag).None?
    decreases |w.files.Keys - ancestors|, 3
  {
    hide Distinct, Shows, ShowAll, Replacement, StandsFor;
    var kids := parent.children;
    var index := |kids|;
    reps, more := [], region;
    assert kids[..index] + Flatten(reps) == kids;
    while index > 0
      invariant index <= |kids| && |reps| == |kids| - index
      invariant region <= more && fresh(more - region)
      invariant parent.children == kids[..index] + Flatten(reps)
      invariant forall i :: index <= i < |kids| ==>
        StandsFor(w, env, ancestors, kids[i], kids[i].head.tag, reps[i - index], more)
    {
      index := index - 1;
      EntitiesShowMore(entities, env, region, more);
      var r: Option<seq<XmlNode>>;
      ghost var grown: set<XmlNode>;
      r, grown := SpliceChild(w, parent, index, kids, entities, ancestors, env, more, Flatten(reps));
      if r.None? {
        return false, reps, grown;
      }
      forall i | index < i < |kids|
        ensures StandsFor(w, env, ancestors, kids[i], kids[i].head.tag, reps[i - index - 1], grown)
      {
        StandsForMore(w, env, ancestors, kids[i], kids[i].head.tag, reps[i - index - 1], more, grown);
      }
      assert kids[..index] + r.value + Flatten(reps) == kids[..index] + Flatten([r.value] + reps) by {
        FlattenCons(r.value, reps);
      }
      reps, more := [r.value] + reps, grown;
    }
    assert kids[..0] + Flatten(reps) == Flatten(reps);
    return true, reps, more;
  }

  lemma FlattenCons(es: seq<XmlNode>, ess: seq<seq<XmlNode>>)
    ensures Flatten([es] + ess) == es + Flatten(ess)
  {
    assert ([es] + ess)[1..] == ess;
  }

  lemma EntitiesShowMore(entities: map<string, XmlNode>, env: map<string, Tree>, region: set<XmlNode>,
                         more: set<XmlNode>)
    requires EntitiesShow(entities, env, region) && region <= more
    ensures EntitiesShow(entities, env, more)
  {
    hide Shows;
    forall name | name in env ensures Shows(entities[name], env[name], more) {
      ShowsMore(entities[name], env[name], region, more);
    }
  }

  // ---------------------------------------------------------------------------
  // Expanding a document

  lemma {:induction false} EntitiesPrefixFails(w: World, decls: seq<(string, Option<Path>)>, ancestors: set<Path>,
                                               k: nat)
    requires k <= |decls| && ExpandEntities(w, decls[..k], ancestors).None?
    ensures ExpandEntities(w, decls, ancestors).None?
    decreases |decls|
  {
    hide Expand;
    if k < |decls| {
      assert decls[..|decls| - 1][..k] == decls[..k];
      EntitiesPrefixFails(w, decls[..|decls| - 1], ancestors, k);
    } else {
      assert decls[..k] == decls;
    }
  }

  /** The entity declarations in order, each target expanded. */
  method ReadEntities(w: World, decls: seq<(string, Option<Path>)>, ancestors: set<Path>)
    returns (r: Option<map<string, XmlNode>>, ghost region: set<XmlNode>)
    ensures fresh(region)
    ensures var expected := ExpandEntities(w, decls, ancestors);
            (r.Some? <==> expected.Some?) && (r.Some? ==> EntitiesShow(r.value, expected.value, region))
    decreases |w.files.Keys - ancestors|, 1
  {
    hide Shows, Expand;
    var entities: map<string, XmlNode> := map[];
    ghost var env: map<string, Tree> := map[];
    region := {};
    for k := 0 to |decls|
      invariant fresh(region) && ExpandEntities(w, decls[..k], ancestors) == Some(env)
      invariant EntitiesShow(entities, env, region)
    {
      var name, target := decls[k].0, decls[k].1;
      assert decls[..k + 1][..k] == decls[..k] && decls[..k + 1][k] == decls[k];
      if target.None? {
        EntitiesPrefixFails(w, decls, ancestors, k + 1);
        return None, region;
      }
      var t: Option<XmlNode>;
      ghost var fetched: set<XmlNode>;
      t, fetched := Xml(w, target.value, ancestors);
      if t.None? {
        EntitiesPrefixFails(w, decls, ancestors, k + 1);
        return None, region;
      }
      ghost var tree := Expand(w, target.value, ancestors).value;
      EntitiesShowMore(entities, env, region, region + fetched);
      ShowsMore(t.value, tree, fetched, region + fetched);
      entities, env, region := entities[name := t.value], env[name := tree], region + fetched;
    }
    assert decls[..|decls|] == decls;
    r := Some(entities);
  }

  /** Element `y` after its child list has been spliced. */
  ghost predicate Processed(w: World, env: map<string, Tree>, ancestors: set<Path>, p: Parsed,
                            y: XmlNode, reps: seq<seq<XmlNode>>, region: set<XmlNode>)
    requires y in p.raw && KidsOk(p, y)
    reads y, region
  {
    && |reps| == |p.kids[y]| && y.children == Flatten(reps)
    && forall i :: 0 <= i < |reps| ==>
         StandsFor(w, env, ancestors, p.kids[y][i], p.raw[y].children[i].head.tag, reps[i], region)
  }

  lemma ProcessedMore(w: World, env: map<string, Tree>, ancestors: set<Path>, p: Parsed,
                      y: XmlNode, reps: seq<seq<XmlNode>>, region: set<XmlNode>, more: set<XmlNode>)
    requires y in p.raw && KidsOk(p, y) && Processed(w, env, ancestors, p, y, reps, region) && region <= more
    ensures Processed(w, env, ancestors, p, y, reps, more)
  {
    hide StandsFor;
    forall i | 0 <= i < |reps|
      ensures StandsFor(w, env, ancestors, p.kids[y][i], p.raw[y].children[i].head.tag, reps[i], more)
    {
      StandsForMore(w, env, ancestors, p.kids[y][i], p.raw[y].children[i].head.tag, reps[i], region, more);
    }
  }

  method SpliceParent(w: World, parent: XmlNode, entities: map<string, XmlNode>, path: Path, ancestors: set<Path>,
                      ghost p: Parsed, ghost env: map<string, Tree>, ghost region: set<XmlNode>)
    returns (ok: bool, ghost reps: seq<seq<XmlNode>>, ghost more: set<XmlNode>)
    requires parent in p.raw && KidsOk(p, parent) && parent.children == p.kids[parent] && parent !in region
    requires forall y :: y in p.raw ==> Labelled(p, path, y)
    requires EntitiesShow(entities, env, region)
    modifies parent`children
    ensures region <= more && fresh(more - region)
    ensures ok ==> Processed(w, env, ancestors, p, parent, reps, more)
    ensures !ok ==> exists i ::
              0 <= i < |p.raw[parent].children| && Unreplaced(w, env, ancestors, p.raw[parent].children[i])
    decreases |w.files.Keys - ancestors|, 4
  {
    hide StandsFor, Shows, Replacement, Distinct;
    ghost var kids := parent.children;
    forall i | 0 <= i < |kids| ensures kids[i].head == p.raw[parent].children[i].head {
      assert Labelled(p, path, kids[i]);
    }
    ok, reps, more := SpliceChildren(w, parent, entities, ancestors, env, region);
    if !ok {
      ghost var c: XmlNode :| c in kids && !c.head.tag.Element? && Replacement(w, env, ancestors, c.head.tag).None?;
      ghost var i :| 0 <= i < |kids| && kids[i] == c;
      assert Unreplaced(w, env, ancestors, p.raw[parent].children[i]);
    }
  }

  /** Every parent in document order; the snapshot of the elements is taken before any splice. */
  method SpliceAll(w: World, elements: seq<XmlNode>, entities: map<string, XmlNode>, path: Path, ancestors: set<Path>,
                   ghost p: Parsed, ghost raws: seq<Raw>, ghost env: map<string, Tree>, ghost region: set<XmlNode>)
    returns (ok: bool, ghost table: map<XmlNode, seq<seq<XmlNode>>>, ghost more: set<XmlNode>)
    requires ParseOk(p) && InOrder(elements, raws, p) && p.raw.Keys !! region
    requires forall y :: y in p.raw ==> Labelled(p, path, y) && y.children == p.kids[y]
    requires EntitiesShow(entities, env, region)
    modifies p.raw.Keys
    ensures region <= more && fresh(more - region)
    ensures forall y :: y in p.raw ==> Labelled(p, path, y)
    ensures ok ==> forall y :: y in p.raw ==> y in table && Processed(w, env, ancestors, p, y, table[y], more)
    ensures !ok ==> Blocked(w, env, ancestors, raws)
    decreases |w.files.Keys - ancestors|, 5
  {
    hide StandsFor, Shows, KidsOk, Processed, Unreplaced, EntitiesShow;
    table, more := map[], region;
    for k := 0 to |elements|
      invariant region <= more && fresh(more - region)
      invariant forall y :: y in p.raw ==> Labelled(p, path, y)
      invariant forall j :: 0 <= j < k ==>
        elements[j] in table && Processed(w, env, ancestors, p, elements[j], table[elements[j]], more)
      invariant forall j :: k <= j < |elements| ==> elements[j].children == p.kids[elements[j]]
    {
      var parent := elements[k];
      assert KidsOk(p, parent);
      EntitiesShowMore(entities, env, region, more);
      ghost var reps: seq<seq<XmlNode>>;
      ghost var grown: set<XmlNode>;
      ok, reps, grown := SpliceParent(w, parent, entities, path, ancestors, p, env, more);
      if !ok {
        return false, table, grown;
      }
      forall j | 0 <= j < k ensures Processed(w, env, ancestors, p, elements[j], table[elements[j]], grown) {
        ProcessedMore(w, env, ancestors, p, elements[j], table[elements[j]], more, grown);
      }
      table, more := table[parent := reps], grown;
    }
    ok := true;
  }

  // ---------------------------------------------------------------------------
  // Spliced parents show the expansion

  ghost predicate AllProcessed(w: World, env: map<string, Tree>, path: Path, ancestors: set<Path>, p: Parsed,
                               table: map<XmlNode, seq<seq<XmlNode>>>, region: set<XmlNode>)
    reads p.raw.Keys, region
  {
    && ParseOk(p)
    && forall y :: y in p.raw ==>
         KidsOk(p, y) && Labelled(p, path, y) && y in table && Processed(w, env, ancestors, p, y, table[y], region)
  }

  lemma {:induction false} Assemble(w: World, env: map<string, Tree>, path: Path, ancestors: set<Path>, p: Parsed,
                                    table: map<XmlNode, seq<seq<XmlNode>>>, region: set<XmlNode>, y: XmlNode)
    requires AllProcessed(w, env, path, ancestors, p, table, region) && y in p.raw
    ensures var r := ExpandNode(w, env, path, ancestors, p.raw[y]);
            r.Some? && Shows(y, r.value, p.raw.Keys + region)
    decreases p.raw[y], 1, 0
  {
    AssembleChildren(w, env, path, ancestors, p, table, region, y, 0);
    hide StandsFor, KidsOk, ParseOk;
    assert Labelled(p, path, y) && Processed(w, env, ancestors, p, y, table[y], region);
    assert table[y][0..] == table[y] && p.raw[y].children[0..] == p.raw[y].children;
  }

  lemma {:induction false} AssembleChildren(w: World, env: map<string, Tree>, path: Path, ancestors: set<Path>,
                                            p: Parsed, table: map<XmlNode, seq<seq<XmlNode>>>, region: set<XmlNode>,
                                            y: XmlNode, i: nat)
    requires AllProcessed(w, env, path, ancestors, p, table, region)
    requires y in p.raw && i <= |p.raw[y].children| == |table[y]|
    ensures var r := ExpandChildren(w, env, path, ancestors, p.raw[y].children[i..]);
            r.Some? && ShowAll(Flatten(table[y][i..]), r.value, p.raw.Keys + region)
    decreases p.raw[y], 0, |p.raw[y].children| - i
  {
    var raws, reps := p.raw[y].children, table[y];
    hide AllProcessed, Splice, Shows, ShowAll;
    if i < |raws| {
      AssembleChild(w, env, path, ancestors, p, table, region, y, i);
      AssembleChildren(w, env, path, ancestors, p, table, region, y, i + 1);
      assert raws[i..][0] == raws[i] && raws[i..][1..] == raws[i + 1..];
      assert reps[i..][0] == reps[i] && reps[i..][1..] == reps[i + 1..];
      ShowAllAppend(reps[i], Splice(w, env, path, ancestors, raws[i]).value, Flatten(reps[i + 1..]),
                    ExpandChildren(w, env, path, ancestors, raws[i + 1..]).value, p.raw.Keys + region);
    } else {
      ShowNone(p.raw.Keys + region);
    }
  }

  lemma ShowNone(region: set<XmlNode>)
    ensures ShowAll([], [], region)
  {
  }

  lemma ShowAllAppend(es: seq<XmlNode>, ts: seq<Tree>, fs: seq<XmlNode>, us: seq<Tree>, region: set<XmlNode>)
    requires ShowAll(es, ts, region) && ShowAll(fs, us, region)
    ensures ShowAll(es + fs, ts + us, region)
  {
    hide Shows;
  }

  lemma {:induction false} AssembleChild(w: World, env: map<string, Tree>, path: Path, ancestors: set<Path>, p: Parsed,
                                         table: map<XmlNode, seq<seq<XmlNode>>>, region: set<XmlNode>, y: XmlNode,
                                         i: nat)
    requires AllProcessed(w, env, path, ancestors, p, table, region)
    requires y in p.raw && i < |p.raw[y].children| == |table[y]|
    ensures var r := Splice(w, env, path, ancestors, p.raw[y].children[i]);
            r.Some? && ShowAll(table[y][i], r.value, p.raw.Keys + region)
    decreases p.raw[y], 0, 0
  {
    var c, raw := p.kids[y][i], p.raw[y].children[i];
    assert KidsOk(p, y) && Processed(w, env, ancestors, p, y, table[y], region);
    assert StandsFor(w, env, ancestors, c, raw.head.tag, table[y][i], region);
    assert c in p.raw && p.raw[c] == raw;
    Assemble(w, env, path, ancestors, p, table, region, c);
    hide AllProcessed, Processed, Shows, ExpandNode, Replacement;
    if !raw.head.tag.Element? {
      ShowAllMore(table[y][i], Replacement(w, env, ancestors, raw.head.tag).value, region, p.raw.Keys + region);
    }
  }

  lemma ParsedKidsOk(p: Parsed)
    requires ParseOk(p)
    ensures forall y :: y in p.raw ==> KidsOk(p, y)
  {
  }

  /** Expanding a document: the returned element shows exactly the expansion, and
      expansion fails exactly when the specification does. */
  method Xml(w: World, path: Path, ancestors: set<Path>) returns (r: Option<XmlNode>, ghost region: set<XmlNode>)
    ensures fresh(region)
    ensures var expected := Expand(w, path, ancestors);
            (r.Some? <==> expected.Some?) && (r.Some? ==> Shows(r.value, expected.value, region))
    decreases |w.files.Keys - ancestors|, 0
  {
    hide Shows, ExpandNode, ExpandEntities, Processed, ParseOk, InOrder, KidsOk, EntitiesShow, RawElements, Blocked;
    if path in ancestors || path !in w.files {
      return None, {};
    }
    Shrinks(w, path, ancestors);
    var document, reached := w.files[path], ancestors + {path};
    var entities: Option<map<string, XmlNode>>;
    entities, region := ReadEntities(w, document.entities, reached);
    if entities.None? {
      return None, region;
    }
    ghost var env := ExpandEntities(w, document.entities, reached).value;
    var tree: XmlNode;
    var elements: seq<XmlNode>;
    ghost var p: Parsed;
    tree, elements, p := Parse(document.root, path);
    var ok: bool;
    ghost var table: map<XmlNode, seq<seq<XmlNode>>>;
    ghost var more: set<XmlNode>;
    ok, table, more := SpliceAll(w, elements, entities.value, path, reached, p, RawElements(document.root), env,
                                 region);
    region := p.raw.Keys + more;
    if !ok {
      BlockedFails(w, env, path, reached, document.root);
      return None, region;
    }
    assert AllProcessed(w, env, path, reached, p, table, more) by {
      ParsedKidsOk(p);
    }
    Assemble(w, env, path, reached, p, table, more, tree);
    r := Some(tree);
  }
}
