/** Where the parts of an expansion stand: in the places of the elements they come from. */
module XmlPlaces {
  import opened Options
  import opened XmlDocuments
  import opened XmlReferences

  /** The element with its document written to every part of it. */
  function Copied(raw: Raw, path: Path): Tree { Tree(raw.head, path, CopiedAll(raw.children, path)) }

  function CopiedAll(raws: seq<Raw>, path: Path): (ts: seq<Tree>)
    ensures |ts| == |raws|
  {
    if raws == [] then [] else [Copied(raws[0], path)] + CopiedAll(raws[1..], path)
  }

  /** No child, at any depth, is a reference. */
  predicate IsPlain(raws: seq<Raw>)
    decreases raws
  {
    forall i :: 0 <= i < |raws| ==> raws[i].head.tag.Element? && IsPlain(raws[i].children)
  }

  lemma {:induction false} PlainChildren(w: World, env: map<string, Tree>, path: Path, a: set<Path>, raws: seq<Raw>)
    requires IsPlain(raws)
    ensures ExpandChildren(w, env, path, a, raws) == Some(CopiedAll(raws, path))
    decreases raws
  {
    if raws != [] {
      PlainChildren(w, env, path, a, raws[0].children);
      PlainChildren(w, env, path, a, raws[1..]);
      assert Splice(w, env, path, a, raws[0]) == Some([Copied(raws[0], path)]);
    }
  }

  /** A document without references expands to itself. */
  lemma {:induction false} PlainDocument(w: World, path: Path, a: set<Path>)
    requires path in w.files && path !in a && w.files[path].entities == [] && IsPlain(w.files[path].root.children)
    ensures Expand(w, path, a) == Some(Copied(w.files[path].root, path))
  {
    PlainChildren(w, map[], path, a + {path}, w.files[path].root.children);
    assert ExpandEntities(w, [], a + {path}) == Some(map[]);
  }

  /** Children are expanded side by side, in their order, and all of them must be. */
  lemma {:induction false} ChildrenInOrder(w: World, env: map<string, Tree>, path: Path, a: set<Path>, left: seq<Raw>,
                                           right: seq<Raw>)
    ensures var x, y := ExpandChildren(w, env, path, a, left), ExpandChildren(w, env, path, a, right);
            ExpandChildren(w, env, path, a, left + right) ==
              if x.None? || y.None? then None else Some(x.value + y.value)
    decreases |left|
  {
    hide Splice;
    var y := ExpandChildren(w, env, path, a, right);
    if left == [] {
      assert left + right == right;
      if y.Some? {
        assert [] + y.value == y.value;
      }
    } else {
      ChildrenInOrder(w, env, path, a, left[1..], right);
      assert (left + right)[0] == left[0] && (left + right)[1..] == left[1..] + right;
      if Splice(w, env, path, a, left[0]).Some? && ExpandChildren(w, env, path, a, left[1..]).Some? && y.Some? {
        var ts, x := Splice(w, env, path, a, left[0]).value, ExpandChildren(w, env, path, a, left[1..]).value;
        assert ts + (x + y.value) == (ts + x) + y.value;
      }
    }
  }

  lemma OneChild(w: World, env: map<string, Tree>, path: Path, a: set<Path>, raw: Raw)
    ensures ExpandChildren(w, env, path, a, [raw]) == Splice(w, env, path, a, raw)
  {
    hide Splice;
    assert [raw][1..] == [];
    assert ExpandChildren(w, env, path, a, []) == Some([]);
    if Splice(w, env, path, a, raw).Some? {
      var ts := Splice(w, env, path, a, raw).value;
      assert ts + [] == ts;
    }
  }

  /** An element keeps its place between its neighbours, with its own head and its children expanded. */
  lemma {:induction false} ElementInPlace(w: World, env: map<string, Tree>, path: Path, a: set<Path>, left: seq<Raw>,
                                          raw: Raw, right: seq<Raw>)
    requires ExpandChildren(w, env, path, a, left + [raw] + right).Some? && raw.head.tag.Element?
    ensures ExpandChildren(w, env, path, a, left).Some? && ExpandChildren(w, env, path, a, right).Some?
    ensures ExpandChildren(w, env, path, a, raw.children).Some?
    ensures ExpandChildren(w, env, path, a, left + [raw] + right).value ==
              ExpandChildren(w, env, path, a, left).value
              + [Tree(raw.head, path, ExpandChildren(w, env, path, a, raw.children).value)]
              + ExpandChildren(w, env, path, a, right).value
  {
    ChildrenInOrder(w, env, path, a, left + [raw], right);
    ChildrenInOrder(w, env, path, a, left, [raw]);
    OneChild(w, env, path, a, raw);
    hide ExpandChildren;
  }

  /** A placeholder gives its place to the document that its last declaration points to. */
  lemma {:induction false} EntityInPlace(w: World, env: map<string, Tree>, path: Path, a: set<Path>, left: seq<Raw>,
                                         raw: Raw, right: seq<Raw>, name: string)
    requires path in w.files && ExpandEntities(w, w.files[path].entities, a) == Some(env)
    requires ExpandChildren(w, env, path, a, left + [raw] + right).Some? && raw.head.tag == Entity(name)
    ensures ExpandChildren(w, env, path, a, left).Some? && ExpandChildren(w, env, path, a, right).Some?
    ensures var target := LastDeclared(w.files[path].entities, name);
            && target.Some? && Expand(w, target.value, a).Some?
            && ExpandChildren(w, env, path, a, left + [raw] + right).value ==
                 ExpandChildren(w, env, path, a, left).value
                 + [Expand(w, target.value, a).value]
                 + ExpandChildren(w, env, path, a, right).value
  {
    ChildrenInOrder(w, env, path, a, left + [raw], right);
    ChildrenInOrder(w, env, path, a, left, [raw]);
    OneChild(w, env, path, a, raw);
    EnvironmentIsLast(w, w.files[path].entities, a, name);
    hide ExpandChildren, ExpandEntities, Expand, LastDeclared;
  }

  /** An include gives its place to the elements that its pointer selects in the target, in their order. */
  lemma {:induction false} IncludeInPlace(w: World, env: map<string, Tree>, path: Path, a: set<Path>, left: seq<Raw>,
                                          raw: Raw, right: seq<Raw>)
    requires ExpandChildren(w, env, path, a, left + [raw] + right).Some? && raw.head.tag.Include?
    ensures ExpandChildren(w, env, path, a, left).Some? && ExpandChildren(w, env, path, a, right).Some?
    ensures var tag := raw.head.tag;
            && tag.supported && tag.target.Some? && Expand(w, tag.target.value, a).Some?
            && var t := Expand(w, tag.target.value, a).value;
               && Selection(w, tag.pointer, t).Some?
               && var ks := Selection(w, tag.pointer, t).value;
                  ExpandChildren(w, env, path, a, left + [raw] + right).value ==
                    ExpandChildren(w, env, path, a, left).value
                    + seq(|ks|, i requires 0 <= i < |ks| => Elements(t)[ks[i]])
                    + ExpandChildren(w, env, path, a, right).value
  {
    ChildrenInOrder(w, env, path, a, left + [raw], right);
    ChildrenInOrder(w, env, path, a, left, [raw]);
    OneChild(w, env, path, a, raw);
    hide ExpandChildren, Expand, Selection, Elements;
    var tag := raw.head.tag;
    var t := Expand(w, tag.target.value, a).value;
    var ks := Selection(w, tag.pointer, t).value;
    assert Pick(Elements(t), ks) == seq(|ks|, i requires 0 <= i < |ks| => Elements(t)[ks[i]]);
  }
}
